/**
 * `parseManifest` and `readAttributes` of `apk.ts`: one forward pass over the chunks of Android
 * binary XML, against an encoder for such documents and what its elements mean.
 */
module Manifests {
  import opened Bytes
  import opened Chunks
  import opened StringPools
  import opened Unicode
  import opened Wrappers

  const RES_XML_TYPE: nat := 0x0003
  const RES_XML_START_ELEMENT_TYPE: nat := 0x0102
  const RES_XML_RESOURCE_MAP_TYPE: nat := 0x0180
  const TYPE_REFERENCE: nat := 0x01
  const TYPE_STRING: nat := 0x03
  const TYPE_INT_FIRST: nat := 0x10
  const TYPE_INT_LAST: nat := 0x1f
  const ATTR_LABEL: nat := 0x0101_0001
  const ATTR_MIN_SDK: nat := 0x0101_020c
  const ATTR_VERSION_CODE: nat := 0x0101_021b
  const ATTR_VERSION_NAME: nat := 0x0101_021c
  const DOT: u16 := 0x2e

  // ---------------------------------------------------- what elements mean

  datatype Attr = Attr(name: Option<JsString>, resourceId: Option<nat>, dataType: nat, data: int, raw: int)

  datatype Metadata = Metadata(
    packageName: JsString, versionCode: Option<int>, versionName: Option<JsString>,
    minSdk: Option<int>, appLabel: Option<JsString>)

  /** What the pass has gathered so far. */
  datatype State = State(result: Option<Metadata>, labelRef: Option<int>)

  /** A string pool, as the answers it gives. */
  type Strings = int -> Option<JsString>

  /** `Number(text)` where it is an integer. */
  type ToInteger = JsString -> Option<int>

  function Digits(n: nat): JsString {
    if n < 10 then [0x30 + n] else Digits(n / 10) + [0x30 + n % 10]
  }

  /** `String(n)`. */
  function Decimal(n: int): JsString {
    if n < 0 then [0x2d] + Digits(-n) else Digits(n)
  }

  function Named(attrs: seq<Attr>, name: JsString): Option<Attr> {
    if attrs == [] then None
    else if attrs[0].name == Some(name) then Some(attrs[0])
    else Named(attrs[1..], name)
  }

  function WithId(attrs: seq<Attr>, id: nat): Option<Attr> {
    if attrs == [] then None
    else if attrs[0].resourceId == Some(id) then Some(attrs[0])
    else WithId(attrs[1..], id)
  }

  /** By name, and only if no attribute has the name, by resource id. */
  function Pick(attrs: seq<Attr>, name: JsString, id: nat): Option<Attr> {
    var named := Named(attrs, name);
    if named.Some? then named else WithId(attrs, id)
  }

  function StringOf(a: Attr, get: Strings): Option<JsString> {
    if a.dataType == TYPE_STRING then get(a.data)
    else if TYPE_INT_FIRST <= a.dataType <= TYPE_INT_LAST then Some(Decimal(a.data))
    else if a.dataType == TYPE_REFERENCE then None
    else if a.raw >= 0 then get(a.raw)
    else None
  }

  /** A missing string converts to zero, as `Number(null)` does. */
  function IntOf(a: Attr, get: Strings, toInteger: ToInteger): Option<int> {
    if TYPE_INT_FIRST <= a.dataType <= TYPE_INT_LAST then Some(a.data)
    else if a.dataType == TYPE_STRING then
      var text := get(a.data);
      if text.None? then Some(0) else toInteger(text.value)
    else None
  }

  /** Segments of word characters between single dots, at least two of them, the first from a letter. */
  predicate IsPackageName(s: JsString) {
    && 0 < |s| <= 255 && IsLetter(s[0]) && s[|s| - 1] != DOT && DOT in s
    && (forall i :: 0 <= i < |s| ==> IsWord(s[i]) || s[i] == DOT)
    && (forall i, j :: 0 <= i < |s| && 0 <= j < |s| && j == i + 1 ==> s[i] != DOT || s[j] != DOT)
  }

  function FromManifest(attrs: seq<Attr>, get: Strings, toInteger: ToInteger): Result<Metadata, Fault> {
    var package := Named(attrs, Js("package"));
    var name := if package.Some? then StringOf(package.value, get) else None;
    if name.None? || !IsPackageName(name.value) then Err(ApkParseError)
    else
      var code := Pick(attrs, Js("versionCode"), ATTR_VERSION_CODE);
      var version := Pick(attrs, Js("versionName"), ATTR_VERSION_NAME);
      Ok(Metadata(name.value,
                  if code.Some? then IntOf(code.value, get, toInteger) else None,
                  if version.Some? then StringOf(version.value, get) else None,
                  None, None))
  }

  /** One start element. */
  function Visit(s: State, element: Option<JsString>, attrs: seq<Attr>, get: Strings, toInteger: ToInteger)
    : Result<State, Fault>
  {
    if element == Some(Js("manifest")) && s.result.None? then
      var meta :- FromManifest(attrs, get, toInteger);
      Ok(s.(result := Some(meta)))
    else if element == Some(Js("uses-sdk")) && s.result.Some? && s.result.value.minSdk.None? then
      var v := Pick(attrs, Js("minSdkVersion"), ATTR_MIN_SDK);
      var sdk := if v.Some? then IntOf(v.value, get, toInteger) else None;
      Ok(s.(result := Some(s.result.value.(minSdk := sdk))))
    else if element == Some(Js("application")) && s.result.Some? && s.result.value.appLabel.None? then
      var v := Pick(attrs, Js("label"), ATTR_LABEL);
      var text := if v.Some? then StringOf(v.value, get) else None;
      var ref := if v.Some? && v.value.dataType == TYPE_REFERENCE && v.value.data != 0 then Some(v.value.data) else s.labelRef;
      Ok(State(Some(s.result.value.(appLabel := text)), ref))
    else Ok(s)
  }

  // ------------------------------------------------------------- the parser

  function I32At(buf: bytes, p: nat): int
    requires p + 4 <= |buf|
  {
    ReadI32(buf, p).value
  }

  function GetFrom(buf: bytes, pool: Header): Strings {
    (i: int) => Lookup(buf, pool, i)
  }

  function AttrAt(buf: bytes, a: nat, get: Strings, ids: seq<nat>): Attr
    requires a + 20 <= |buf|
  {
    var name := U32At(buf, a + 4);
    Attr(get(name), if name < |ids| then Some(ids[name]) else None, buf[a + 15], I32At(buf, a + 16), I32At(buf, a + 8))
  }

  /** The records from number `i`; one that runs past the buffer ends the list. */
  function AttrsFrom(buf: bytes, base: nat, stride: nat, i: nat, count: nat, get: Strings, ids: seq<nat>): seq<Attr>
    decreases count - i
  {
    if i >= count || base + i * stride + 20 > |buf| then []
    else [AttrAt(buf, base + i * stride, get, ids)] + AttrsFrom(buf, base, stride, i + 1, count, get, ids)
  }

  /** Where the records lie is read from the file: start and stride as well as count. */
  function Attributes(buf: bytes, ext: nat, get: Strings, ids: seq<nat>): Result<seq<Attr>, Fault> {
    var start :- ReadU16(buf, ext + 8);
    var stride :- ReadU16(buf, ext + 10);
    var count :- ReadU16(buf, ext + 12);
    Ok(AttrsFrom(buf, ext + start, stride, 0, count, get, ids))
  }

  function IdsAt(buf: bytes, at: nat, count: nat): (ids: seq<nat>)
    requires at + 4 * count <= |buf|
    ensures |ids| == count
  {
    seq(count, i requires 0 <= i < count => U32At(buf, at + i * 4))
  }

  /** The pass from offset `p`. A header larger than its resource map throws, as a negative length does. */
  function Walk(buf: bytes, p: nat, pool: Option<Header>, ids: seq<nat>, s: State, toInteger: ToInteger): Result<State, Fault>
    decreases if p <= |buf| then |buf| - p else 0
  {
    if p + 8 > |buf| then Ok(s)
    else
      var kind, header, size := U16At(buf, p), U16At(buf, p + 2), U32At(buf, p + 4);
      if size < 8 || p + size > |buf| then Ok(s)
      else if kind == POOL_TYPE then
        var h :- ReadHeader(buf, p);
        Walk(buf, p + size, Some(h), ids, s, toInteger)
      else if kind == RES_XML_RESOURCE_MAP_TYPE then
        if size < header then Err(RangeError)
        else Walk(buf, p + size, pool, IdsAt(buf, p + header, (size - header) / 4), s, toInteger)
      else if kind == RES_XML_START_ELEMENT_TYPE && pool.Some? then
        var get := GetFrom(buf, pool.value);
        var name :- ReadU32(buf, p + header + 4);
        var attrs :- Attributes(buf, p + header, get, ids);
        var s' :- Visit(s, get(name), attrs, get, toInteger);
        Walk(buf, p + size, pool, ids, s', toInteger)
      else Walk(buf, p + size, pool, ids, s, toInteger)
  }

  function Finish(s: State): Result<State, Fault> {
    if s.result.Some? then Ok(s) else Err(ApkParseError)
  }

  function Parse(buf: bytes, toInteger: ToInteger): Result<State, Fault> {
    if |buf| < 8 || U16At(buf, 0) != RES_XML_TYPE then Err(ApkParseError)
    else
      var s :- Walk(buf, U16At(buf, 2), None, [], State(None, None), toInteger);
      Finish(s)
  }

  method ReadAttributes(buf: bytes, ext: nat, pool: StringPool, ids: seq<nat>) returns (r: Result<seq<Attr>, Fault>)
    requires pool.Valid() && pool.buf == buf
    modifies pool
    ensures pool.Valid()
    ensures r == Attributes(buf, ext, GetFrom(buf, pool.header), ids)
  {
    hide Lookup, U16At, U32At, ReadI32, AttrsFrom;
    var start :- ReadU16(buf, ext + 8);
    var stride :- ReadU16(buf, ext + 10);
    var count :- ReadU16(buf, ext + 12);
    var attrs: seq<Attr> := [];
    var i := 0;
    ghost var base, get := ext + start, GetFrom(buf, pool.header);
    ghost var all := AttrsFrom(buf, base, stride, 0, count, get, ids);
    assert [] + all == all;
    while i < count
      invariant 0 <= i <= count && pool.Valid()
      invariant all == attrs + AttrsFrom(buf, base, stride, i, count, get, ids)
    {
      var a := ext + start + i * stride;
      if a + 20 > |buf| {
        break;
      }
      var nameIndex := U32At(buf, a + 4);
      var name := pool.Get(nameIndex);
      var attr := Attr(name, if nameIndex < |ids| then Some(ids[nameIndex]) else None,
                       buf[a + 15], I32At(buf, a + 16), I32At(buf, a + 8));
      AttrsStep(buf, base, stride, i, count, get, ids, attrs);
      attrs := attrs + [attr];
      i := i + 1;
    }
    AttrsEnd(buf, base, stride, i, count, get, ids);
    assert attrs + [] == attrs;
    return Ok(attrs);
  }

  lemma AttrsEnd(buf: bytes, base: nat, stride: nat, i: nat, count: nat, get: Strings, ids: seq<nat>)
    requires i >= count || base + i * stride + 20 > |buf|
    ensures AttrsFrom(buf, base, stride, i, count, get, ids) == []
  {
  }

  lemma AttrsStep(buf: bytes, base: nat, stride: nat, i: nat, count: nat, get: Strings, ids: seq<nat>, front: seq<Attr>)
    requires i < count && base + i * stride + 20 <= |buf|
    ensures front + AttrsFrom(buf, base, stride, i, count, get, ids)
            == (front + [AttrAt(buf, base + i * stride, get, ids)]) + AttrsFrom(buf, base, stride, i + 1, count, get, ids)
  {
    hide AttrAt;
  }

  method ReadResourceMap(buf: bytes, at: nat, count: nat) returns (ids: seq<nat>)
    requires at + 4 * count <= |buf|
    ensures ids == IdsAt(buf, at, count)
  {
    ids := [];
    var i := 0;
    while i < count
      invariant 0 <= i <= count
      invariant ids == IdsAt(buf, at, i)
    {
      ids := ids + [U32At(buf, at + i * 4)];
      i := i + 1;
    }
  }

  method ParseManifest(buf: bytes, toInteger: ToInteger) returns (r: Result<State, Fault>)
    ensures r == Parse(buf, toInteger)
  {
    hide ReadHeader, Attributes, IdsAt, Visit, Lookup, ReadU32;
    if |buf| < 8 || U16At(buf, 0) != RES_XML_TYPE {
      return Err(ApkParseError);
    }
    var pool: StringPool? := null;
    var resourceMap: seq<nat> := [];
    var s := State(None, None);
    var p := U16At(buf, 2);
    ghost var all := Walk(buf, p, None, [], s, toInteger);
    while p + 8 <= |buf|
      invariant pool != null ==> fresh(pool) && pool.Valid() && pool.buf == buf
      invariant all == Walk(buf, p, if pool == null then None else Some(pool.header), resourceMap, s, toInteger)
      decreases |buf| - p
    {
      var kind := U16At(buf, p);
      var headerSize := U16At(buf, p + 2);
      var size := U32At(buf, p + 4);
      if size < 8 || p + size > |buf| {
        break;
      }
      if kind == POOL_TYPE {
        var header :- ReadHeader(buf, p);
        pool := new StringPool(buf, header);
      } else if kind == RES_XML_RESOURCE_MAP_TYPE {
        if size < headerSize {
          return Err(RangeError);
        }
        resourceMap := ReadResourceMap(buf, p + headerSize, (size - headerSize) / 4);
      } else if kind == RES_XML_START_ELEMENT_TYPE && pool != null {
        var ext := p + headerSize;
        var nameIndex :- ReadU32(buf, ext + 4);
        var elementName := pool.Get(nameIndex);
        var attrs :- ReadAttributes(buf, ext, pool, resourceMap);
        s :- Visit(s, elementName, attrs, GetFrom(buf, pool.header), toInteger);
      }
      p := p + size;
    }
    return Finish(s);
  }

  // ------------------------------------------------------------- the encoder

  predicate IsI32(n: int) { -0x8000_0000 <= n < 0x8000_0000 }

  function I32(n: int): (b: bytes)
    requires IsI32(n)
    ensures |b| == 4
  {
    LE32(n % 0x1_0000_0000)
  }

  /** One attribute record; `res` is the value's size and reserved byte, `pad` what a newer tool appended. */
  datatype Record = Record(ns: nat, name: nat, raw: int, res: bytes, dataType: byte, data: int, pad: bytes)

  predicate RecordFits(r: Record, stride: nat) {
    IsU32(r.ns) && IsU32(r.name) && IsI32(r.raw) && |r.res| == 3 && IsI32(r.data) && 20 + |r.pad| == stride
  }

  function RecordBytes(r: Record, stride: nat): (b: bytes)
    requires RecordFits(r, stride)
    ensures |b| == stride
  {
    LE32(r.ns) + (LE32(r.name) + (I32(r.raw) + (r.res + ([r.dataType] + (I32(r.data) + r.pad)))))
  }

  function Records(rs: seq<Record>, stride: nat): (b: bytes)
    requires forall i :: 0 <= i < |rs| ==> RecordFits(rs[i], stride)
  {
    if rs == [] then [] else RecordBytes(rs[0], stride) + Records(rs[1..], stride)
  }

  /** A start element: `more` extends its header, `gap` its extension, `tail` its end. */
  datatype Element = Element(
    more: bytes, ns: nat, name: nat, gap: bytes, stride: nat, records: seq<Record>, tail: bytes)

  predicate ElementFits(e: Element) {
    && IsU32(e.ns) && IsU32(e.name) && 14 + |e.gap| < 0x1_0000 && e.stride < 0x1_0000 && |e.records| < 0x1_0000
    && (forall i :: 0 <= i < |e.records| ==> RecordFits(e.records[i], e.stride))
  }

  /** Where the records lie, and the records. */
  function Placed(e: Element): bytes
    requires ElementFits(e)
  {
    LE16(14 + |e.gap|) + (LE16(e.stride) + (LE16(|e.records|) + (e.gap + (Records(e.records, e.stride) + e.tail))))
  }

  function Extension(e: Element): bytes
    requires ElementFits(e)
  {
    LE32(e.ns) + (LE32(e.name) + Placed(e))
  }

  function Ids(ids: seq<nat>): (b: bytes)
    requires forall i :: 0 <= i < |ids| ==> IsU32(ids[i])
    ensures |b| == 4 * |ids|
  {
    if ids == [] then []
    else
      assert IsU32(ids[0]);
      LE32(ids[0]) + Ids(ids[1..])
  }

  /** The chunks of a document, of the three kinds that matter and of any other. */
  datatype Part =
    | PoolPart(p: pool)
    | MapPart(more: bytes, ids: seq<nat>, tail: bytes)
    | StartPart(e: Element)
    | OtherPart(kind: nat, header: nat, body: bytes)

  predicate PartFits(p: Part) {
    match p
    case PoolPart(_) => true
    case MapPart(more, ids, tail) =>
      8 + |more| < 0x1_0000 && |tail| < 4 && (forall i :: 0 <= i < |ids| ==> IsU32(ids[i]))
      && 8 + |more| + 4 * |ids| + |tail| < 0x1_0000_0000
    case StartPart(e) => ElementFits(e) && 8 + |e.more| < 0x1_0000 && 8 + |e.more| + |Extension(e)| < 0x1_0000_0000
    case OtherPart(kind, header, body) =>
      kind < 0x1_0000 && header < 0x1_0000 && 8 + |body| < 0x1_0000_0000
      && kind !in {0x0001, 0x0180, 0x0102}
  }

  type part = p: Part | PartFits(p) witness OtherPart(0, 8, [])

  function PartBytes(p: part): bytes {
    match p
    case PoolPart(pool) => EncodePool(pool)
    case MapPart(more, ids, tail) => ChunkBytes(0x0180, 8 + |more|, more + (Ids(ids) + tail))
    case StartPart(e) => ChunkBytes(0x0102, 8 + |e.more|, e.more + Extension(e))
    case OtherPart(kind, header, body) => ChunkBytes(kind, header, body)
  }

  /** The chunks end to end, and bytes that start no chunk. */
  function PartsBytes(ps: seq<part>, tail: bytes): bytes {
    if ps == [] then tail else PartBytes(ps[0]) + PartsBytes(ps[1..], tail)
  }

  /** The file: its own header, which `more` extends, and the chunks. */
  function Encode(more: bytes, ps: seq<part>, size: bytes, tail: bytes): bytes
    requires 8 + |more| < 0x1_0000
  {
    LE16(0x0003) + (LE16(8 + |more|) + (size + (more + PartsBytes(ps, tail))))
  }

  // ----------------------------------------------------- what a document means

  function From(strings: seq<JsString>): Strings {
    (i: int) => if 0 <= i < |strings| then Some(strings[i]) else None
  }

  function AttrOf(r: Record, get: Strings, ids: seq<nat>): Attr {
    Attr(get(r.name), if r.name < |ids| then Some(ids[r.name]) else None, r.dataType, r.data, r.raw)
  }

  function AttrsOf(rs: seq<Record>, get: Strings, ids: seq<nat>): seq<Attr> {
    if rs == [] then [] else [AttrOf(rs[0], get, ids)] + AttrsOf(rs[1..], get, ids)
  }

  /** The elements in order, each under the last string pool and resource map before it. */
  function Meaning(ps: seq<part>, strings: Option<seq<JsString>>, ids: seq<nat>, s: State, toInteger: ToInteger)
    : Result<State, Fault>
  {
    if ps == [] then Ok(s)
    else
      match ps[0]
      case PoolPart(p) => Meaning(ps[1..], Some(p.strings), ids, s, toInteger)
      case MapPart(_, map_, _) => Meaning(ps[1..], strings, map_, s, toInteger)
      case OtherPart(_, _, _) => Meaning(ps[1..], strings, ids, s, toInteger)
      case StartPart(e) =>
        if strings.None? then Meaning(ps[1..], strings, ids, s, toInteger)
        else
          var get := From(strings.value);
          var s' :- Visit(s, get(e.name), AttrsOf(e.records, get, ids), get, toInteger);
          Meaning(ps[1..], strings, ids, s', toInteger)
  }

  // ------------------------------------------------------------------ proofs

  lemma I32Inverse(buf: bytes, at: nat, n: int)
    requires IsI32(n) && Holds(buf, at, I32(n))
    ensures at + 4 <= |buf| && I32At(buf, at) == n
  {
    hide LE32, U32At;
    var m := n % 0x1_0000_0000;
    assert m == if n < 0 then n + 0x1_0000_0000 else n;
    ReadInside(buf, at, LE32(m), 0);
    LE32Inverse(m);
  }

  lemma RecordInverse(buf: bytes, a: nat, r: Record, stride: nat, get: Strings, ids: seq<nat>)
    requires RecordFits(r, stride) && Holds(buf, a, RecordBytes(r, stride))
    ensures a + 20 <= |buf| && AttrAt(buf, a, get, ids) == AttrOf(r, get, ids)
  {
    var value := [r.dataType] + (I32(r.data) + r.pad);
    HoldsSplit5(buf, a, LE32(r.ns), LE32(r.name), I32(r.raw), r.res, value);
    HoldsSplit(buf, a + 15, [r.dataType], I32(r.data) + r.pad);
    HoldsSplit(buf, a + 16, I32(r.data), r.pad);
    Held32(buf, a + 4, r.name);
    I32Inverse(buf, a + 8, r.raw);
    HeldReads(buf, a + 15, [r.dataType]);
    I32Inverse(buf, a + 16, r.data);
  }

  /** Records are found wherever the file says they start and however long it says they are. */
  lemma {:induction false} RecordsInverse(buf: bytes, base: nat, stride: nat, rs: seq<Record>, i: nat, count: nat,
                                          get: Strings, ids: seq<nat>)
    requires i + |rs| == count && forall k :: 0 <= k < |rs| ==> RecordFits(rs[k], stride)
    requires Holds(buf, base + i * stride, Records(rs, stride))
    ensures AttrsFrom(buf, base, stride, i, count, get, ids) == AttrsOf(rs, get, ids)
    decreases |rs|
  {
    hide RecordBytes, AttrAt, AttrOf, Holds, RecordFits;
    if rs != [] {
      var a := base + i * stride;
      HoldsSplit(buf, a, RecordBytes(rs[0], stride), Records(rs[1..], stride));
      RecordInverse(buf, a, rs[0], stride, get, ids);
      assert base + (i + 1) * stride == a + stride;
      RecordsInverse(buf, base, stride, rs[1..], i + 1, count, get, ids);
    }
  }

  lemma ExtensionInverse(buf: bytes, ext: nat, e: Element, get: Strings, ids: seq<nat>)
    requires ElementFits(e) && Holds(buf, ext, Extension(e))
    ensures ReadU32(buf, ext + 4) == Ok(e.name)
    ensures Attributes(buf, ext, get, ids) == Ok(AttrsOf(e.records, get, ids))
  {
    hide Holds, RecordFits, Records, AttrsFrom, AttrsOf, LE16, LE32, ReadU16, ReadU32, Placed;
    var placed := Placed(e);
    HoldsSplit(buf, ext, LE32(e.ns), LE32(e.name) + placed);
    HoldsSplit(buf, ext + 4, LE32(e.name), placed);
    Held32(buf, ext + 4, e.name);
    PlacedInverse(buf, ext, e);
    RecordsInverse(buf, ext + 14 + |e.gap|, e.stride, e.records, 0, |e.records|, get, ids);
  }

  lemma PlacedInverse(buf: bytes, ext: nat, e: Element)
    requires ElementFits(e) && Holds(buf, ext + 8, Placed(e))
    ensures ReadU16(buf, ext + 8) == Ok(14 + |e.gap|) && ReadU16(buf, ext + 10) == Ok(e.stride)
    ensures ReadU16(buf, ext + 12) == Ok(|e.records|)
    ensures Holds(buf, ext + 14 + |e.gap|, Records(e.records, e.stride))
  {
    hide Holds, RecordFits, Records, LE16, ReadU16, RecordBytes;
    var records := Records(e.records, e.stride);
    HoldsSplit5(buf, ext + 8, LE16(14 + |e.gap|), LE16(e.stride), LE16(|e.records|), e.gap, records + e.tail);
    HoldsSplit(buf, ext + 14 + |e.gap|, records, e.tail);
    Held16(buf, ext + 8, 14 + |e.gap|);
    Held16(buf, ext + 10, e.stride);
    Held16(buf, ext + 12, |e.records|);
  }

  lemma {:induction false} IdsInverse(buf: bytes, at: nat, ids: seq<nat>, i: nat)
    requires i < |ids| && forall k :: 0 <= k < |ids| ==> IsU32(ids[k])
    requires Holds(buf, at, Ids(ids))
    ensures at + 4 * |ids| <= |buf| && U32At(buf, at + i * 4) == ids[i]
    decreases i
  {
    assert |Ids(ids)| == 4 * |ids|;
    HoldsSplit(buf, at, LE32(ids[0]), Ids(ids[1..]));
    hide LE32, U32At;
    if i == 0 {
      Held32(buf, at, ids[0]);
    } else {
      IdsInverse(buf, at + 4, ids[1..], i - 1);
    }
  }

  lemma MapInverse(buf: bytes, at: nat, ids: seq<nat>)
    requires forall k :: 0 <= k < |ids| ==> IsU32(ids[k])
    requires Holds(buf, at, Ids(ids))
    ensures at + 4 * |ids| <= |buf| && IdsAt(buf, at, |ids|) == ids
  {
    HeldLength(buf, at, Ids(ids));
    hide Ids, U32At, IsU32, Holds, IdsAt;
    var read := IdsAt(buf, at, |ids|);
    forall i | 0 <= i < |ids|
      ensures read[i] == ids[i]
    {
      IdsInverse(buf, at, ids, i);
      IdRead(buf, at, |ids|, i);
    }
  }

  lemma IdRead(buf: bytes, at: nat, count: nat, i: nat)
    requires at + 4 * count <= |buf| && i < count
    ensures IdsAt(buf, at, count)[i] == U32At(buf, at + i * 4)
  {
    hide U32At;
  }

  /** Two pools that give the same answers make the same sense of an element. */
  lemma VisitSame(s: State, element: Option<JsString>, attrs: seq<Attr>, g: Strings, h: Strings, toInteger: ToInteger)
    requires forall i: int :: g(i) == h(i)
    ensures Visit(s, element, attrs, g, toInteger) == Visit(s, element, attrs, h, toInteger)
  {
    hide Named, WithId, IsPackageName, Decimal;
  }

  lemma {:induction false} AttrsSame(rs: seq<Record>, g: Strings, h: Strings, ids: seq<nat>)
    requires forall i: int :: g(i) == h(i)
    ensures AttrsOf(rs, g, ids) == AttrsOf(rs, h, ids)
    decreases |rs|
  {
    if rs != [] {
      AttrsSame(rs[1..], g, h, ids);
    }
  }

  /** The parser's pool gives the document's strings. */
  ghost predicate Serves(buf: bytes, pool: Option<Header>, strings: Option<seq<JsString>>) {
    && (pool.None? <==> strings.None?)
    && (pool.Some? ==> forall i: int :: GetFrom(buf, pool.value)(i) == From(strings.value)(i))
  }

  lemma PoolServes(buf: bytes, at: nat, p: pool)
    requires Holds(buf, at, EncodePool(p))
    ensures ReadHeader(buf, at).Ok? && Serves(buf, Some(ReadHeader(buf, at).value), Some(p.strings))
  {
    hide Lookup, ReadHeader;
    PoolInverse(buf, at, p);
  }

  lemma StartWalks(buf: bytes, at: nat, e: Element, pool: Header, strings: seq<JsString>, ids: seq<nat>, s: State,
                   toInteger: ToInteger)
    requires PartFits(StartPart(e)) && Holds(buf, at, PartBytes(StartPart(e)))
    requires Serves(buf, Some(pool), Some(strings))
    ensures
      var get := From(strings);
      var next := Visit(s, get(e.name), AttrsOf(e.records, get, ids), get, toInteger);
      Walk(buf, at, Some(pool), ids, s, toInteger)
      == if next.Err? then next
         else Walk(buf, at + |PartBytes(StartPart(e))|, Some(pool), ids, next.value, toInteger)
  {
    hide U16At, U32At, Holds, Visit, Attributes, AttrsOf, Extension, ElementFits, ReadU32;
    var body := e.more + Extension(e);
    ChunkFields(buf, at, RES_XML_START_ELEMENT_TYPE, 8 + |e.more|, body);
    HoldsSplit(buf, at + 8, e.more, Extension(e));
    var g, h := GetFrom(buf, pool), From(strings);
    ExtensionInverse(buf, at + 8 + |e.more|, e, g, ids);
    AttrsSame(e.records, g, h, ids);
    VisitSame(s, h(e.name), AttrsOf(e.records, h, ids), g, h, toInteger);
    assert g(e.name) == h(e.name);
  }

  lemma MapWalks(buf: bytes, at: nat, p: part, pool: Option<Header>, ids: seq<nat>, s: State, toInteger: ToInteger)
    requires p.MapPart? && Holds(buf, at, PartBytes(p))
    ensures Walk(buf, at, pool, ids, s, toInteger) == Walk(buf, at + |PartBytes(p)|, pool, p.ids, s, toInteger)
  {
    hide U16At, U32At, Holds, IdsAt, Ids, Walk, IsU32;
    ChunkFields(buf, at, RES_XML_RESOURCE_MAP_TYPE, 8 + |p.more|, p.more + (Ids(p.ids) + p.tail));
    HoldsSplit(buf, at + 8, p.more, Ids(p.ids) + p.tail);
    HoldsSplit(buf, at + 8 + |p.more|, Ids(p.ids), p.tail);
    MapInverse(buf, at + 8 + |p.more|, p.ids);
    WalkMap(buf, at, |PartBytes(p)|, 8 + |p.more|, pool, ids, s, toInteger);
    assert (4 * |p.ids| + |p.tail|) / 4 == |p.ids|;
  }

  /** The walk at a resource map. */
  lemma WalkMap(buf: bytes, at: nat, size: nat, header: nat, pool: Option<Header>, ids: seq<nat>, s: State,
                toInteger: ToInteger)
    requires 8 <= header <= size && at + size <= |buf|
    requires U16At(buf, at) == RES_XML_RESOURCE_MAP_TYPE && U16At(buf, at + 2) == header && U32At(buf, at + 4) == size
    ensures Walk(buf, at, pool, ids, s, toInteger)
            == Walk(buf, at + size, pool, IdsAt(buf, at + header, (size - header) / 4), s, toInteger)
  {
    hide U16At, U32At, IdsAt, ReadHeader, Visit, Attributes, ReadU32;
  }

  /** From any chunk on, the pass computes what the rest of the document means. */
  lemma {:induction false} WalkInverse(buf: bytes, at: nat, ps: seq<part>, tail: bytes, pool: Option<Header>,
                                       strings: Option<seq<JsString>>, ids: seq<nat>, s: State, toInteger: ToInteger)
    requires Holds(buf, at, PartsBytes(ps, tail)) && at + |PartsBytes(ps, tail)| == |buf| && NoChunk(tail)
    requires Serves(buf, pool, strings)
    ensures Walk(buf, at, pool, ids, s, toInteger) == Meaning(ps, strings, ids, s, toInteger)
    decreases |ps|
  {
    hide Walk, Holds, Serves, Visit, PartBytes, EncodePool, ReadHeader, AttrsOf, From, PartFits;
    if ps == [] {
      TailEnds(buf, at, tail);
      WalkEnds(buf, at, pool, ids, s, toInteger);
    } else {
      var p, rest := ps[0], ps[1..];
      HoldsSplit(buf, at, PartBytes(p), PartsBytes(rest, tail));
      var next := at + |PartBytes(p)|;
      match p {
        case PoolPart(q) =>
          PoolWalks(buf, at, q, pool, ids, s, toInteger);
          WalkInverse(buf, next, rest, tail, Some(ReadHeader(buf, at).value), Some(q.strings), ids, s, toInteger);
        case MapPart(_, map_, _) =>
          MapWalks(buf, at, p, pool, ids, s, toInteger);
          WalkInverse(buf, next, rest, tail, pool, strings, map_, s, toInteger);
        case OtherPart(_, _, _) =>
          OtherWalks(buf, at, p, pool, ids, s, toInteger);
          WalkInverse(buf, next, rest, tail, pool, strings, ids, s, toInteger);
        case StartPart(e) =>
          ServesBoth(buf, pool, strings);
          if pool.None? {
            OtherWalks(buf, at, p, pool, ids, s, toInteger);
            WalkInverse(buf, next, rest, tail, pool, strings, ids, s, toInteger);
          } else {
            var get := From(strings.value);
            var visited := Visit(s, get(e.name), AttrsOf(e.records, get, ids), get, toInteger);
            StartWalks(buf, at, e, pool.value, strings.value, ids, s, toInteger);
            if visited.Ok? {
              WalkInverse(buf, next, rest, tail, pool, strings, ids, visited.value, toInteger);
            }
          }
      }
    }
  }

  lemma WalkEnds(buf: bytes, p: nat, pool: Option<Header>, ids: seq<nat>, s: State, toInteger: ToInteger)
    requires p + 8 > |buf| || U32At(buf, p + 4) < 8 || p + U32At(buf, p + 4) > |buf|
    ensures Walk(buf, p, pool, ids, s, toInteger) == Ok(s)
  {
  }

  lemma ServesBoth(buf: bytes, pool: Option<Header>, strings: Option<seq<JsString>>)
    requires Serves(buf, pool, strings)
    ensures pool.None? <==> strings.None?
    ensures pool.Some? ==> Serves(buf, Some(pool.value), Some(strings.value))
  {
  }

  lemma PoolWalks(buf: bytes, at: nat, p: pool, pool_: Option<Header>, ids: seq<nat>, s: State, toInteger: ToInteger)
    requires Holds(buf, at, PartBytes(PoolPart(p)))
    ensures ReadHeader(buf, at).Ok? && Serves(buf, Some(ReadHeader(buf, at).value), Some(p.strings))
    ensures Walk(buf, at, pool_, ids, s, toInteger)
            == Walk(buf, at + |PartBytes(PoolPart(p))|, Some(ReadHeader(buf, at).value), ids, s, toInteger)
  {
    hide ReadHeader, U16At, U32At, EncodePool, Holds, Serves, Visit, Attributes, IdsAt, ReadU32;
    assert PartBytes(PoolPart(p)) == EncodePool(p);
    PoolServes(buf, at, p);
    PoolFields(buf, at, p);
    WalkPool(buf, at, |EncodePool(p)|, pool_, ids, s, toInteger);
  }

  /** The walk at a pool chunk. */
  lemma WalkPool(buf: bytes, at: nat, size: nat, pool: Option<Header>, ids: seq<nat>, s: State, toInteger: ToInteger)
    requires 8 <= size && at + size <= |buf| && U16At(buf, at) == POOL_TYPE && U32At(buf, at + 4) == size
    requires ReadHeader(buf, at).Ok?
    ensures Walk(buf, at, pool, ids, s, toInteger)
            == Walk(buf, at + size, Some(ReadHeader(buf, at).value), ids, s, toInteger)
  {
    hide ReadHeader, U16At, U32At, Visit, Attributes, IdsAt, ReadU32;
  }

  lemma OtherWalks(buf: bytes, at: nat, p: part, pool: Option<Header>, ids: seq<nat>, s: State, toInteger: ToInteger)
    requires p.OtherPart? || (p.StartPart? && pool.None?)
    requires Holds(buf, at, PartBytes(p))
    ensures Walk(buf, at, pool, ids, s, toInteger) == Walk(buf, at + |PartBytes(p)|, pool, ids, s, toInteger)
  {
    hide U16At, U32At, Holds, Extension;
    if p.OtherPart? {
      ChunkFields(buf, at, p.kind, p.header, p.body);
    } else {
      ChunkFields(buf, at, RES_XML_START_ELEMENT_TYPE, 8 + |p.e.more|, p.e.more + Extension(p.e));
    }
  }

  /**
   * Parsing an encoded document gives what its elements mean: for any chunks in any order, either
   * string encoding, headers, extensions and records of any declared length, and any bytes at the end that
   * start no whole chunk.
   */
  lemma ManifestInverse(more: bytes, ps: seq<part>, size: bytes, tail: bytes, toInteger: ToInteger)
    requires 8 + |more| < 0x1_0000 && |size| == 4 && NoChunk(tail)
    ensures
      var s := Meaning(ps, None, [], State(None, None), toInteger);
      Parse(Encode(more, ps, size, tail), toInteger) == if s.Err? then s else Finish(s.value)
  {
    hide U16At, Walk, Meaning, LE16;
    var buf, body := Encode(more, ps, size, tail), PartsBytes(ps, tail);
    assert buf[0..|buf|] == buf;
    HoldsSplit(buf, 0, LE16(RES_XML_TYPE), LE16(8 + |more|) + (size + (more + body)));
    HoldsSplit(buf, 2, LE16(8 + |more|), size + (more + body));
    HoldsSplit(buf, 4, size, more + body);
    HoldsSplit(buf, 8, more, body);
    Held16(buf, 0, RES_XML_TYPE);
    Held16(buf, 2, 8 + |more|);
    WalkInverse(buf, 8 + |more|, ps, tail, None, None, [], State(None, None), toInteger);
  }

  // ------------------------------------------------------- every buffer at all

  /** What a pass may still change: the SDK level and the label, and those only while they are missing. */
  predicate Extends(s: State, t: State) {
    s.result.Some? ==>
      && t.result.Some?
      && t.result.value.packageName == s.result.value.packageName
      && t.result.value.versionCode == s.result.value.versionCode
      && t.result.value.versionName == s.result.value.versionName
      && (s.result.value.minSdk.Some? ==> t.result.value.minSdk == s.result.value.minSdk)
      && (s.result.value.appLabel.Some? ==> t.result.value.appLabel == s.result.value.appLabel && t.labelRef == s.labelRef)
  }

  predicate Sound(s: State) {
    s.result.Some? ==> IsPackageName(s.result.value.packageName)
  }

  lemma VisitExtends(s: State, element: Option<JsString>, attrs: seq<Attr>, get: Strings, toInteger: ToInteger)
    requires Visit(s, element, attrs, get, toInteger).Ok?
    ensures Extends(s, Visit(s, element, attrs, get, toInteger).value)
    ensures Sound(s) ==> Sound(Visit(s, element, attrs, get, toInteger).value)
  {
    hide Named, WithId, IsPackageName, Decimal, Js;
  }

  lemma {:induction false} WalkExtends(buf: bytes, p: nat, pool: Option<Header>, ids: seq<nat>, s: State, toInteger: ToInteger)
    requires Walk(buf, p, pool, ids, s, toInteger).Ok?
    ensures Extends(s, Walk(buf, p, pool, ids, s, toInteger).value)
    ensures Sound(s) ==> Sound(Walk(buf, p, pool, ids, s, toInteger).value)
    decreases if p <= |buf| then |buf| - p else 0
  {
    hide Visit, Attributes, ReadHeader, IdsAt, ReadU32, IsPackageName, U16At, U32At;
    if p + 8 <= |buf| {
      var kind, header, size := U16At(buf, p), U16At(buf, p + 2), U32At(buf, p + 4);
      if size >= 8 && p + size <= |buf| {
        if kind == POOL_TYPE {
          WalkExtends(buf, p + size, Some(ReadHeader(buf, p).value), ids, s, toInteger);
        } else if kind == RES_XML_RESOURCE_MAP_TYPE {
          WalkExtends(buf, p + size, pool, IdsAt(buf, p + header, (size - header) / 4), s, toInteger);
        } else if kind == RES_XML_START_ELEMENT_TYPE && pool.Some? {
          var get := GetFrom(buf, pool.value);
          var name := ReadU32(buf, p + header + 4).value;
          var attrs := Attributes(buf, p + header, get, ids).value;
          VisitExtends(s, get(name), attrs, get, toInteger);
          WalkExtends(buf, p + size, pool, ids, Visit(s, get(name), attrs, get, toInteger).value, toInteger);
        } else {
          WalkExtends(buf, p + size, pool, ids, s, toInteger);
        }
      }
    }
  }

  /** Whatever the bytes, what comes out carries a syntactically valid package name. */
  lemma ParsedNameIsValid(buf: bytes, toInteger: ToInteger)
    requires Parse(buf, toInteger).Ok?
    ensures Parse(buf, toInteger).value.result.Some?
    ensures IsPackageName(Parse(buf, toInteger).value.result.value.packageName)
  {
    hide Walk, IsPackageName;
    WalkExtends(buf, U16At(buf, 2), None, [], State(None, None), toInteger);
  }
}
