/**
 * An encoder for resource tables, and what a table says about a string resource: the walk of `Resources`
 * undoes the one and computes the other.
 */
module ResourceTables {
  import opened Bytes
  import opened Chunks
  import opened Resources
  import opened StringPools
  import opened Unicode
  import opened Wrappers

  // --------------------------------------------------------------- the tables

  /** A simple entry: `gap` extends its head, `valueHead` is the value's size and reserved byte. */
  datatype Entry = Entry(flags: nat, gap: bytes, valueHead: bytes, dataType: byte, data: nat, pad: bytes)

  predicate EntryFits(e: Entry) {
    e.flags < 0x1_0000 && 4 + |e.gap| < 0x1_0000 && |e.valueHead| == 3 && IsU32(e.data)
  }

  function EntryBytes(e: Entry): (b: bytes)
    requires EntryFits(e)
    ensures |b| == 12 + |e.gap| + |e.pad|
  {
    LE16(4 + |e.gap|) + (LE16(e.flags) + (e.gap + (e.valueHead + ([e.dataType] + (LE32(e.data) + e.pad)))))
  }

  /**
   * One configuration of one type: `config` is what follows the configuration's size field, `more`
   * extends the head, `gap` separates offsets from entries.
   */
  datatype TypeChunk = TypeChunk(
    id: byte, res: bytes, config: bytes, more: bytes, gap: bytes, entries: seq<Option<Entry>>, tail: bytes)

  predicate AllEntriesFit(entries: seq<Option<Entry>>) {
    forall i :: 0 <= i < |entries| && entries[i].Some? ==> EntryFits(entries[i].value)
  }

  function OneEntry(e: Option<Entry>): bytes
    requires e.Some? ==> EntryFits(e.value)
  {
    if e.Some? then EntryBytes(e.value) else []
  }

  function EntriesBytes(entries: seq<Option<Entry>>): bytes
    requires AllEntriesFit(entries)
  {
    if entries == [] then [] else OneEntry(entries[0]) + EntriesBytes(entries[1..])
  }

  /** Where entry `i` starts within the entries. */
  function StartOf(entries: seq<Option<Entry>>, i: nat): (n: nat)
    requires AllEntriesFit(entries) && i <= |entries|
    ensures n <= |EntriesBytes(entries)|
  {
    if i == 0 then 0 else |OneEntry(entries[0])| + StartOf(entries[1..], i - 1)
  }

  function OffsetsBytes(entries: seq<Option<Entry>>, base: nat): (b: bytes)
    requires AllEntriesFit(entries) && base + |EntriesBytes(entries)| < NO_ENTRY
    ensures |b| == 4 * |entries|
  {
    if entries == [] then []
    else LE32(if entries[0].Some? then base else 0xffff_ffff) + OffsetsBytes(entries[1..], base + |OneEntry(entries[0])|)
  }

  function Head(t: TypeChunk): nat {
    24 + |t.config| + |t.more|
  }

  function EntriesStart(t: TypeChunk): nat {
    Head(t) + 4 * |t.entries| + |t.gap|
  }

  predicate TypeFits(t: TypeChunk) {
    && |t.res| == 3 && Head(t) < 0x1_0000 && AllEntriesFit(t.entries)
    && EntriesStart(t) + |EntriesBytes(t.entries)| + |t.tail| < NO_ENTRY
  }

  /** What follows the head of a type chunk: the offsets and the entries. */
  function TypeRest(t: TypeChunk): (b: bytes)
    requires TypeFits(t)
    ensures |b| == 4 * |t.entries| + |t.gap| + |EntriesBytes(t.entries)| + |t.tail|
  {
    OffsetsBytes(t.entries, 0) + (t.gap + (EntriesBytes(t.entries) + t.tail))
  }

  function ConfigPart(t: TypeChunk): (b: bytes)
    requires TypeFits(t)
    ensures |b| == EntriesStart(t) + |EntriesBytes(t.entries)| + |t.tail| - 20
  {
    LE32(4 + |t.config|) + (t.config + (t.more + TypeRest(t)))
  }

  function TypeBody(t: TypeChunk): (b: bytes)
    requires TypeFits(t)
    ensures |b| == EntriesStart(t) + |EntriesBytes(t.entries)| + |t.tail| - 8
  {
    [t.id] + (t.res + (LE32(|t.entries|) + (LE32(EntriesStart(t)) + ConfigPart(t))))
  }

  /** A chunk inside a package. */
  datatype Inner = TypeInner(t: TypeChunk) | OtherInner(kind: nat, header: nat, body: bytes)

  predicate InnerFits(i: Inner) {
    match i
    case TypeInner(t) => TypeFits(t)
    case OtherInner(kind, header, body) =>
      kind < 0x1_0000 && header < 0x1_0000 && 8 + |body| < 0x1_0000_0000 && kind != 0x0201
  }

  type inner = i: Inner | InnerFits(i) witness OtherInner(0, 8, [])

  function InnerBytes(i: inner): bytes {
    match i
    case TypeInner(t) => ChunkBytes(0x0201, Head(t), TypeBody(t))
    case OtherInner(kind, header, body) => ChunkBytes(kind, header, body)
  }

  function InnersBytes(is_: seq<inner>, tail: bytes): bytes {
    if is_ == [] then tail else InnerBytes(is_[0]) + InnersBytes(is_[1..], tail)
  }

  /** A package: `more` extends its head past the id; `tail` starts no chunk, and ends the list of chunks. */
  datatype Package = Package(id: nat, more: bytes, inners: seq<inner>, tail: bytes)

  predicate PackageFits(p: Package) {
    IsU32(p.id) && 12 + |p.more| < 0x1_0000 && NoChunk(p.tail)
    && 12 + |p.more| + |InnersBytes(p.inners, p.tail)| < 0x1_0000_0000
  }

  /** A chunk of the table. */
  datatype Part = PoolPart(p: pool) | PackagePart(package: Package) | OtherPart(kind: nat, header: nat, body: bytes)

  predicate PartFits(p: Part) {
    match p
    case PoolPart(_) => true
    case PackagePart(package) => PackageFits(package)
    case OtherPart(kind, header, body) =>
      kind < 0x1_0000 && header < 0x1_0000 && 8 + |body| < 0x1_0000_0000
      && kind !in {0x0001, 0x0200}
  }

  type part = p: Part | PartFits(p) witness OtherPart(0, 8, [])

  function PartBytes(p: part): bytes {
    match p
    case PoolPart(pool) => EncodePool(pool)
    case PackagePart(q) =>
      ChunkBytes(0x0200, 12 + |q.more|, LE32(q.id) + (q.more + InnersBytes(q.inners, q.tail)))
    case OtherPart(kind, header, body) => ChunkBytes(kind, header, body)
  }

  function PartsBytes(ps: seq<part>, tail: bytes): bytes {
    if ps == [] then tail else PartBytes(ps[0]) + PartsBytes(ps[1..], tail)
  }

  /** A table: `more` is the rest of its twelve-byte head and whatever extends it. */
  function Encode(ps: seq<part>, more: bytes, tail: bytes): bytes
    requires 4 + |more| < 0x1_0000
  {
    LE16(0x0002) + (LE16(4 + |more|) + (more + PartsBytes(ps, tail)))
  }

  // --------------------------------------------------------- what a table says

  /** The text of a plain, non-blank string entry. */
  function EntryText(e: Entry, strings: seq<JsString>): Option<JsString> {
    if e.flags % 2 == 0 && e.dataType == 3 && e.data < |strings| && exists u <- strings[e.data] :: !IsSpace(u)
    then Some(strings[e.data]) else None
  }

  /** The default configuration is the one with nothing in it. */
  function Says(i: Inner, want: Wanted, strings: seq<JsString>): Finding {
    if !i.TypeInner? || i.t.id != want.type_ || want.entry >= |i.t.entries| || i.t.entries[want.entry].None? then Nothing
    else
      match EntryText(i.t.entries[want.entry].value, strings)
      case None => Nothing
      case Some(text) => if forall b <- i.t.config :: b == 0 then Default(text) else Translation(text)
  }

  function AllSay(is_: seq<inner>, want: Wanted, strings: seq<JsString>): (fs: seq<Finding>)
    ensures |fs| == |is_| && forall k :: 0 <= k < |is_| ==> fs[k] == Says(is_[k], want, strings)
  {
    if is_ == [] then [] else [Says(is_[0], want, strings)] + AllSay(is_[1..], want, strings)
  }

  /** What a chunk of the table answers, given the strings of the pool before it. */
  function Hit(p: Part, package: nat, want: Wanted, strings: Option<seq<JsString>>): Option<JsString> {
    if !p.PackagePart? || p.package.id % 0x100 != package || strings.None? then None
    else
      var r := Choose(AllSay(p.package.inners, want, strings.value), None);
      if r.Ok? then r.value else None
  }

  /** The strings of the first pool among these chunks. */
  function FirstPool(ps: seq<part>): Option<seq<JsString>> {
    if ps == [] then None else if ps[0].PoolPart? then Some(ps[0].p.strings) else FirstPool(ps[1..])
  }

  /** The first package after the first pool that has an answer gives it. */
  ghost predicate IsAnswer(ps: seq<part>, package: nat, want: Wanted, r: Option<JsString>) {
    if r.Some? then
      exists k :: 0 <= k < |ps| && Hit(ps[k], package, want, FirstPool(ps[..k])) == r
                  && forall j :: 0 <= j < k ==> Hit(ps[j], package, want, FirstPool(ps[..j])).None?
    else forall j :: 0 <= j < |ps| ==> Hit(ps[j], package, want, FirstPool(ps[..j])).None?
  }

  /** The same answer, looked for from the front. */
  function Answer(ps: seq<part>, package: nat, want: Wanted, strings: Option<seq<JsString>>): Option<JsString> {
    if ps == [] then None
    else if ps[0].PoolPart? then
      Answer(ps[1..], package, want, if strings.None? then Some(ps[0].p.strings) else strings)
    else
      var hit := Hit(ps[0], package, want, strings);
      if hit.Some? then hit else Answer(ps[1..], package, want, strings)
  }

  // ------------------------------------------------------------------- proofs

  ghost predicate Serves(buf: bytes, pool: Header, strings: seq<JsString>) {
    forall i: int :: Lookup(buf, pool, i) == if 0 <= i < |strings| then Some(strings[i]) else None
  }

  lemma EntryReads(buf: bytes, at: nat, e: Entry)
    requires EntryFits(e) && Holds(buf, at, EntryBytes(e))
    ensures
      var v := at + 4 + |e.gap|;
      && v + 8 <= |buf| && U16At(buf, at) == 4 + |e.gap| && U16At(buf, at + 2) == e.flags
      && buf[v + 3] == e.dataType && U32At(buf, v + 4) == e.data
  {
    hide LE16, LE32, Holds, U16At, U32At;
    var v := at + 4 + |e.gap|;
    var value := [e.dataType] + (LE32(e.data) + e.pad);
    HoldsSplit5(buf, at, LE16(4 + |e.gap|), LE16(e.flags), e.gap, e.valueHead, value);
    HoldsSplit(buf, v + 3, [e.dataType], LE32(e.data) + e.pad);
    HoldsSplit(buf, v + 4, LE32(e.data), e.pad);
    Held16(buf, at, 4 + |e.gap|);
    Held16(buf, at + 2, e.flags);
    Held32(buf, v + 4, e.data);
    ByteHeld(buf, v + 3, e.dataType);
  }

  lemma EntryTextRead(buf: bytes, at: nat, limit: nat, e: Entry, pool: Header, strings: seq<JsString>)
    requires EntryFits(e) && Holds(buf, at, EntryBytes(e)) && at + |EntryBytes(e)| <= limit <= |buf|
    requires Serves(buf, pool, strings)
    ensures EntryValue(buf, at, limit, pool) == EntryText(e, strings)
  {
    hide U16At, U32At, Lookup, Holds, EntryBytes, EntryFits;
    EntryReads(buf, at, e);
  }

  lemma {:induction false} EntryHeldAt(buf: bytes, at: nat, entries: seq<Option<Entry>>, i: nat)
    requires AllEntriesFit(entries) && i < |entries| && Holds(buf, at, EntriesBytes(entries))
    ensures Holds(buf, at + StartOf(entries, i), OneEntry(entries[i]))
    ensures StartOf(entries, i) + |OneEntry(entries[i])| <= |EntriesBytes(entries)|
    decreases i
  {
    hide Holds, OneEntry, EntryFits;
    HoldsSplit(buf, at, OneEntry(entries[0]), EntriesBytes(entries[1..]));
    if i > 0 {
      EntryHeldAt(buf, at + |OneEntry(entries[0])|, entries[1..], i - 1);
    }
  }

  lemma {:induction false} OffsetHeldAt(buf: bytes, at: nat, entries: seq<Option<Entry>>, base: nat, i: nat)
    requires AllEntriesFit(entries) && base + |EntriesBytes(entries)| < NO_ENTRY
    requires i < |entries| && Holds(buf, at, OffsetsBytes(entries, base))
    ensures at + i * 4 + 4 <= |buf|
    ensures U32At(buf, at + i * 4) == if entries[i].Some? then base + StartOf(entries, i) else NO_ENTRY
    decreases i
  {
    hide Holds, OneEntry, EntryFits, U32At, LE32;
    var first := if entries[0].Some? then base else NO_ENTRY;
    var next := base + |OneEntry(entries[0])|;
    HoldsSplit(buf, at, LE32(first), OffsetsBytes(entries[1..], next));
    if i == 0 {
      Held32(buf, at, first);
    } else {
      OffsetHeldAt(buf, at + 4, entries[1..], next, i - 1);
    }
  }

  /** The fields of a type chunk, where the inspection looks for them. */
  lemma TypeFields(buf: bytes, at: nat, t: TypeChunk)
    requires TypeFits(t) && Holds(buf, at + 8, TypeBody(t))
    ensures at + 24 <= |buf| && buf[at + 8] == t.id
    ensures U32At(buf, at + 12) == |t.entries| && U32At(buf, at + 16) == EntriesStart(t)
    ensures U32At(buf, at + 20) == 4 + |t.config| && Holds(buf, at + 24, t.config)
    ensures Holds(buf, at + Head(t), TypeRest(t))
  {
    hide Holds, LE32, ConfigPart, EntriesBytes, U32At, AllEntriesFit;
    var n, start := LE32(|t.entries|), LE32(EntriesStart(t));
    HoldsSplit5(buf, at + 8, [t.id], t.res, n, start, ConfigPart(t));
    Held32(buf, at + 12, |t.entries|);
    Held32(buf, at + 16, EntriesStart(t));
    ByteHeld(buf, at + 8, t.id);
    ConfigFields(buf, at, t);
  }

  lemma ConfigFields(buf: bytes, at: nat, t: TypeChunk)
    requires TypeFits(t) && Holds(buf, at + 20, ConfigPart(t))
    ensures at + 24 <= |buf|
    ensures U32At(buf, at + 20) == 4 + |t.config| && Holds(buf, at + 24, t.config)
    ensures Holds(buf, at + Head(t), TypeRest(t))
  {
    hide Holds, LE32, TypeRest, EntriesBytes, U32At, AllEntriesFit;
    var size := LE32(4 + |t.config|);
    HoldsSplit(buf, at + 20, size, t.config + (t.more + TypeRest(t)));
    HoldsSplit(buf, at + 24, t.config, t.more + TypeRest(t));
    HoldsSplit(buf, at + 24 + |t.config|, t.more, TypeRest(t));
    Held32(buf, at + 20, 4 + |t.config|);
  }

  /** The offset of an entry, and the entry at that offset. */
  lemma EntryFound(buf: bytes, at: nat, t: TypeChunk, i: nat)
    requires TypeFits(t) && i < |t.entries| && Holds(buf, at + Head(t), TypeRest(t))
    ensures at + Head(t) + i * 4 + 4 <= |buf|
    ensures t.entries[i].None? ==> U32At(buf, at + Head(t) + i * 4) == NO_ENTRY
    ensures
      t.entries[i].Some? ==>
        var start := at + EntriesStart(t) + StartOf(t.entries, i);
        && U32At(buf, at + Head(t) + i * 4) == StartOf(t.entries, i) < NO_ENTRY
        && Holds(buf, start, EntryBytes(t.entries[i].value))
        && start + |EntryBytes(t.entries[i].value)| <= at + EntriesStart(t) + |EntriesBytes(t.entries)|
  {
    hide Holds, U32At, OffsetsBytes, EntriesBytes, EntryBytes, EntryFits;
    var entries := EntriesBytes(t.entries) + t.tail;
    HoldsSplit(buf, at + Head(t), OffsetsBytes(t.entries, 0), t.gap + entries);
    HoldsSplit(buf, at + Head(t) + 4 * |t.entries|, t.gap, entries);
    HoldsSplit(buf, at + EntriesStart(t), EntriesBytes(t.entries), t.tail);
    OffsetHeldAt(buf, at + Head(t), t.entries, 0, i);
    EntryHeldAt(buf, at + EntriesStart(t), t.entries, i);
  }

  lemma ByteHeld(buf: bytes, at: nat, b: byte)
    requires Holds(buf, at, [b])
    ensures at + 1 <= |buf| && buf[at] == b
  {
    HeldReads(buf, at, [b]);
  }

  lemma DefaultRead(buf: bytes, c: Chunk, config: bytes)
    requires c.at + c.size <= |buf| && c.at + 24 + |config| <= c.at + c.size
    requires U32At(buf, c.at + 20) == 4 + |config| && Holds(buf, c.at + 24, config)
    ensures IsDefault(buf, c) <==> AllZero(config)
  {
    hide U32At;
    assert Subarray(buf, c.at + 24, c.at + 24 + |config|) == config;
  }

  /** Inspecting an encoded type chunk finds what the chunk says. */
  lemma TypeInverse(buf: bytes, at: nat, t: TypeChunk, want: Wanted, pool: Header, strings: seq<JsString>)
    requires TypeFits(t) && Holds(buf, at, ChunkBytes(RES_TABLE_TYPE_TYPE, Head(t), TypeBody(t)))
    requires Serves(buf, pool, strings)
    ensures
      var c := Chunk(at, RES_TABLE_TYPE_TYPE, Head(t), 8 + |TypeBody(t)|);
      at + c.size <= |buf| && Inspect(buf, c, want, pool) == Says(TypeInner(t), want, strings)
  {
    hide Holds, U16At, U32At, TypeBody, TypeRest, EntryText, EntryValue, IsDefault, AllZero, EntriesBytes, EntryBytes,
      Serves, TypeFits, StartOf, Inspect, Says;
    TypeLengths(t);
    ChunkFields(buf, at, RES_TABLE_TYPE_TYPE, Head(t), TypeBody(t));
    TypeFields(buf, at, t);
    var c := Chunk(at, RES_TABLE_TYPE_TYPE, Head(t), 8 + |TypeBody(t)|);
    DefaultRead(buf, c, t.config);
    var text: Option<JsString> := None;
    if want.entry < |t.entries| {
      EntryFound(buf, at, t, want.entry);
      if t.entries[want.entry].Some? {
        var e := t.entries[want.entry].value;
        EntryTextRead(buf, at + EntriesStart(t) + StartOf(t.entries, want.entry), at + c.size, e, pool, strings);
        text := EntryText(e, strings);
      }
    }
    Inspected(buf, c, t, want, pool, text);
    Said(t, want, strings, text);
  }

  /** The inspection of a chunk whose fields and wanted entry are known. */
  lemma Inspected(buf: bytes, c: Chunk, t: TypeChunk, want: Wanted, pool: Header, text: Option<JsString>)
    requires TypeFits(t) && c.kind == RES_TABLE_TYPE_TYPE && c.header == Head(t)
    requires c.at + 24 <= c.at + c.size <= |buf| && buf[c.at + 8] == t.id
    requires U32At(buf, c.at + 12) == |t.entries| && U32At(buf, c.at + 16) == EntriesStart(t)
    requires c.size == EntriesStart(t) + |EntriesBytes(t.entries)| + |t.tail|
    requires IsDefault(buf, c) <==> AllZero(t.config)
    requires
      if want.entry < |t.entries| && t.entries[want.entry].Some? then
        && U32At(buf, c.at + Head(t) + want.entry * 4) == StartOf(t.entries, want.entry) < NO_ENTRY
        && EntryValue(buf, c.at + EntriesStart(t) + StartOf(t.entries, want.entry), c.at + c.size, pool) == text
      else
        (want.entry < |t.entries| ==> U32At(buf, c.at + Head(t) + want.entry * 4) == NO_ENTRY) && text == None
    ensures
      Inspect(buf, c, want, pool)
      == if t.id != want.type_ || text.None? then Nothing
         else if AllZero(t.config) then Default(text.value) else Translation(text.value)
  {
    hide U32At, EntryValue, IsDefault, AllZero, EntriesBytes, StartOf, AllEntriesFit;
  }

  lemma Said(t: TypeChunk, want: Wanted, strings: seq<JsString>, text: Option<JsString>)
    requires text == if want.entry < |t.entries| && t.entries[want.entry].Some?
                     then EntryText(t.entries[want.entry].value, strings) else None
    ensures
      Says(TypeInner(t), want, strings)
      == if t.id != want.type_ || text.None? then Nothing
         else if AllZero(t.config) then Default(text.value) else Translation(text.value)
  {
    hide EntryText;
    assert forall i :: 0 <= i < |t.config| ==> t.config[i] in t.config;
  }

  lemma TypeLengths(t: TypeChunk)
    requires TypeFits(t)
    ensures Head(t) < 0x1_0000 && 8 + |TypeBody(t)| == EntriesStart(t) + |EntriesBytes(t.entries)| + |t.tail| < NO_ENTRY
    ensures forall i :: 0 <= i < |t.entries| && t.entries[i].Some? ==> EntryFits(t.entries[i].value)
  {
  }

  lemma InnerInverse(buf: bytes, at: nat, i: inner, want: Wanted, pool: Header, strings: seq<JsString>)
    requires Holds(buf, at, InnerBytes(i)) && Serves(buf, pool, strings)
    ensures at + |InnerBytes(i)| <= |buf| && |InnerBytes(i)| >= 8 && U32At(buf, at + 4) == |InnerBytes(i)|
    ensures Inspect(buf, Chunk(at, U16At(buf, at), U16At(buf, at + 2), |InnerBytes(i)|), want, pool) == Says(i, want, strings)
  {
    if i.TypeInner? {
      TypeLengths(i.t);
    }
    hide Holds, U16At, U32At, TypeBody, Serves, InspectType, TypeFits;
    match i {
      case TypeInner(t) =>
        ChunkFields(buf, at, RES_TABLE_TYPE_TYPE, Head(t), TypeBody(t));
        TypeInverse(buf, at, t, want, pool, strings);
      case OtherInner(kind, header, body) =>
        ChunkFields(buf, at, kind, header, body);
    }
  }

  /** The chunks of a package say, one by one, what was put into them. */
  lemma {:induction false} InnersInverse(buf: bytes, at: nat, end: nat, is_: seq<inner>, tail: bytes, want: Wanted,
                                         pool: Header, strings: seq<JsString>)
    requires Holds(buf, at, InnersBytes(is_, tail)) && at + |InnersBytes(is_, tail)| == end <= |buf| && NoChunk(tail)
    requires Serves(buf, pool, strings)
    ensures Findings(buf, ChunksOf(buf, at, end), want, pool) == AllSay(is_, want, strings)
    decreases |is_|
  {
    hide Holds, Serves, InnerBytes, Inspect, Says, U16At, U32At;
    if is_ != [] {
      HoldsSplit(buf, at, InnerBytes(is_[0]), InnersBytes(is_[1..], tail));
      InnerInverse(buf, at, is_[0], want, pool, strings);
      var c := Chunk(at, U16At(buf, at), U16At(buf, at + 2), |InnerBytes(is_[0])|);
      assert ChunksOf(buf, at, end) == [c] + ChunksOf(buf, at + c.size, end);
      InnersInverse(buf, at + c.size, end, is_[1..], tail, want, pool, strings);
    } else {
      TailEnds(buf, at, tail);
    }
  }

  lemma PackageInverse(buf: bytes, at: nat, p: Package, want: Wanted, pool: Header, strings: seq<JsString>)
    requires PackageFits(p) && NoChunk(p.tail) && Holds(buf, at, PartBytes(PackagePart(p))) && Serves(buf, pool, strings)
    ensures
      var size := |PartBytes(PackagePart(p))|;
      && size >= 12 && at + size <= |buf|
      && U16At(buf, at) == RES_TABLE_PACKAGE_TYPE && U16At(buf, at + 2) == 12 + |p.more| && U32At(buf, at + 4) == size
      && ReadU32(buf, at + 8) == Ok(p.id)
      && Pass(buf, at + 12 + |p.more|, at + size, want, pool, None) == Choose(AllSay(p.inners, want, strings), None)
  {
    hide Holds, Serves, U16At, U32At, ReadU32, PartBytes, PackageFits, InnersBytes, ChunksOf, Findings, AllSay, Choose;
    PackageFields(buf, at, p);
    InnersInverse(buf, at + 12 + |p.more|, at + |PartBytes(PackagePart(p))|, p.inners, p.tail, want, pool, strings);
  }

  lemma PackageFields(buf: bytes, at: nat, p: Package)
    requires PackageFits(p) && Holds(buf, at, PartBytes(PackagePart(p)))
    ensures
      var size := |PartBytes(PackagePart(p))|;
      && size == 12 + |p.more| + |InnersBytes(p.inners, p.tail)| && at + size <= |buf|
      && U16At(buf, at) == RES_TABLE_PACKAGE_TYPE && U16At(buf, at + 2) == 12 + |p.more| && U32At(buf, at + 4) == size
      && ReadU32(buf, at + 8) == Ok(p.id)
      && Holds(buf, at + 12 + |p.more|, InnersBytes(p.inners, p.tail))
  {
    hide Holds, U16At, U32At, LE32, InnersBytes;
    var inners := InnersBytes(p.inners, p.tail);
    var body := LE32(p.id) + (p.more + inners);
    ChunkFields(buf, at, RES_TABLE_PACKAGE_TYPE, 12 + |p.more|, body);
    HoldsSplit(buf, at + 8, LE32(p.id), p.more + inners);
    HoldsSplit(buf, at + 12, p.more, inners);
    Held32(buf, at + 8, p.id);
  }

  /** Nothing in an encoded package is a fault. */
  lemma {:induction false} NoFault(fs: seq<Finding>, fallback: Option<JsString>)
    requires forall k :: 0 <= k < |fs| ==> !fs[k].Faulty?
    ensures Choose(fs, fallback).Ok?
    decreases |fs|
  {
    if fs != [] {
      NoFault(fs[1..], if fallback.Some? then fallback else if fs[0].Translation? then Some(fs[0].value) else None);
    }
  }

  lemma PoolGives(buf: bytes, at: nat, p: pool)
    requires Holds(buf, at, EncodePool(p))
    ensures ReadHeader(buf, at).Ok? && Serves(buf, ReadHeader(buf, at).value, p.strings)
  {
    hide Lookup, ReadHeader;
    PoolInverse(buf, at, p);
  }

  /** The head of any chunk of the table. */
  lemma PartFields(buf: bytes, at: nat, p: part)
    requires Holds(buf, at, PartBytes(p))
    ensures |PartBytes(p)| >= 8 && at + |PartBytes(p)| <= |buf| && U32At(buf, at + 4) == |PartBytes(p)|
    ensures p.PoolPart? <==> U16At(buf, at) == POOL_TYPE
    ensures p.PackagePart? <==> U16At(buf, at) == RES_TABLE_PACKAGE_TYPE
  {
    hide Holds, U16At, U32At, EncodePool;
    match p {
      case PoolPart(q) => PoolFields(buf, at, q);
      case PackagePart(q) => PackageFields(buf, at, q);
      case OtherPart(kind, header, body) => ChunkFields(buf, at, kind, header, body);
    }
  }

  ghost predicate PoolAgrees(buf: bytes, pool: Option<Header>, strings: Option<seq<JsString>>) {
    (pool.None? <==> strings.None?) && (pool.Some? ==> Serves(buf, pool.value, strings.value))
  }

  /** The walk's first chunk, and the rest. */
  lemma ChunkAhead(buf: bytes, at: nat, size: nat)
    requires 8 <= size && at + size <= |buf| && U32At(buf, at + 4) == size
    ensures
      var c := Chunk(at, U16At(buf, at), U16At(buf, at + 2), size);
      && ChunksOf(buf, at, |buf|) == [c] + ChunksOf(buf, at + size, |buf|)
      && ChunksOf(buf, at, |buf|)[1..] == ChunksOf(buf, at + size, |buf|)
  {
    hide U16At, U32At;
  }

  lemma NoChunkAhead(buf: bytes, at: nat, tail: bytes)
    requires Holds(buf, at, tail) && at + |tail| == |buf| && NoChunk(tail)
    ensures ChunksOf(buf, at, |buf|) == []
  {
    TailEnds(buf, at, tail);
    hide U16At, U32At;
  }

  /** A pool is taken by the walk only if it is the first. */
  lemma PoolTurn(buf: bytes, at: nat, p: part, package: nat, want: Wanted, pool: Option<Header>)
    requires p.PoolPart? && Holds(buf, at, PartBytes(p))
    ensures at + |PartBytes(p)| <= |buf| && ReadHeader(buf, at).Ok?
    ensures ResolveIn(buf, ChunksOf(buf, at, |buf|), package, want, pool)
            == ResolveIn(buf, ChunksOf(buf, at + |PartBytes(p)|, |buf|), package, want,
                         if pool.None? then Some(ReadHeader(buf, at).value) else pool)
  {
    hide Holds, PartBytes, Pass, ReadHeader, U16At, U32At, ReadU32, ChunksOf;
    PartFields(buf, at, p);
    PoolHeld(buf, at, p);
    PoolGives(buf, at, p.p);
    ChunkAhead(buf, at, |PartBytes(p)|);
  }

  /** Any other chunk answers what it says, or the walk goes on. */
  lemma OtherTurn(buf: bytes, at: nat, p: part, package: nat, want: Wanted, pool: Option<Header>,
                  strings: Option<seq<JsString>>)
    requires !p.PoolPart? && Holds(buf, at, PartBytes(p)) && PoolAgrees(buf, pool, strings)
    ensures at + |PartBytes(p)| <= |buf|
    ensures
      var hit := Hit(p, package, want, strings);
      ResolveIn(buf, ChunksOf(buf, at, |buf|), package, want, pool)
      == if hit.Some? then Ok(hit)
         else ResolveIn(buf, ChunksOf(buf, at + |PartBytes(p)|, |buf|), package, want, pool)
  {
    hide Holds, Serves, PartBytes, Pass, ReadHeader, U16At, U32At, Hit, ReadU32, ChunksOf;
    PartFields(buf, at, p);
    ChunkAhead(buf, at, |PartBytes(p)|);
    if p.PackagePart? {
      PackageAt(buf, at, p);
      if p.package.id % 0x100 == package && pool.Some? {
        PackageHits(buf, at, p.package, package, want, pool.value, strings.value);
      } else {
        NoHit(p, package, want, strings);
      }
    } else {
      NoHit(p, package, want, strings);
    }
  }

  lemma PoolAgreesThen(buf: bytes, at: nat, p: part, pool: Option<Header>, strings: Option<seq<JsString>>)
    requires p.PoolPart? && Holds(buf, at, PartBytes(p)) && PoolAgrees(buf, pool, strings)
    ensures ReadHeader(buf, at).Ok? && (pool.None? <==> strings.None?)
    ensures PoolAgrees(buf, if pool.None? then Some(ReadHeader(buf, at).value) else pool,
                       if strings.None? then Some(p.p.strings) else strings)
  {
    hide Holds, Serves, PartBytes, ReadHeader;
    PoolHeld(buf, at, p);
    PoolGives(buf, at, p.p);
  }

  lemma {:induction false} PartsInverse(buf: bytes, at: nat, ps: seq<part>, tail: bytes, package: nat, want: Wanted,
                                        pool: Option<Header>, strings: Option<seq<JsString>>)
    requires Holds(buf, at, PartsBytes(ps, tail)) && at + |PartsBytes(ps, tail)| == |buf| && NoChunk(tail)
    requires PoolAgrees(buf, pool, strings)
    ensures ResolveIn(buf, ChunksOf(buf, at, |buf|), package, want, pool) == Ok(Answer(ps, package, want, strings))
    decreases |ps|
  {
    hide Holds, PoolAgrees, PartBytes, ReadHeader, Hit, ResolveIn, ChunksOf;
    if ps == [] {
      NoChunkAhead(buf, at, tail);
      NothingLeft(buf, package, want, pool);
    } else {
      var p, next := ps[0], at + |PartBytes(ps[0])|;
      HoldsSplit(buf, at, PartBytes(p), PartsBytes(ps[1..], tail));
      if p.PoolPart? {
        PoolTurn(buf, at, p, package, want, pool);
        PoolAgreesThen(buf, at, p, pool, strings);
        PartsInverse(buf, next, ps[1..], tail, package, want,
                     if pool.None? then Some(ReadHeader(buf, at).value) else pool,
                     if strings.None? then Some(p.p.strings) else strings);
      } else {
        OtherTurn(buf, at, p, package, want, pool, strings);
        PartsInverse(buf, next, ps[1..], tail, package, want, pool, strings);
      }
    }
  }

  lemma NothingLeft(buf: bytes, package: nat, want: Wanted, pool: Option<Header>)
    ensures ResolveIn(buf, [], package, want, pool) == Ok(None)
  {
  }

  lemma PackageAt(buf: bytes, at: nat, p: part)
    requires p.PackagePart? && Holds(buf, at, PartBytes(p))
    ensures PackageFits(p.package) && p == PackagePart(p.package) && at + |PartBytes(p)| <= |buf|
    ensures U16At(buf, at + 2) == 12 + |p.package.more| && ReadU32(buf, at + 8) == Ok(p.package.id)
  {
    hide U16At, U32At, PartBytes, Holds, ReadU32;
    PackageFields(buf, at, p.package);
  }

  lemma PoolHeld(buf: bytes, at: nat, p: part)
    requires p.PoolPart? && Holds(buf, at, PartBytes(p))
    ensures Holds(buf, at, EncodePool(p.p))
  {
  }

  /** What the walk finds in a package it looks into. */
  lemma PackageHits(buf: bytes, at: nat, p: Package, package: nat, want: Wanted, pool: Header, strings: seq<JsString>)
    requires PackageFits(p) && Holds(buf, at, PartBytes(PackagePart(p))) && Serves(buf, pool, strings)
    requires p.id % 0x100 == package
    ensures at + |PartBytes(PackagePart(p))| <= |buf|
    ensures Pass(buf, at + 12 + |p.more|, at + |PartBytes(PackagePart(p))|, want, pool, None)
            == Ok(Hit(PackagePart(p), package, want, Some(strings)))
  {
    assert NoChunk(p.tail);
    hide Holds, Serves, Pass, U16At, U32At, PartBytes, Choose, ReadU32, PackageFits;
    PackageInverse(buf, at, p, want, pool, strings);
    var fs := AllSay(p.inners, want, strings);
    assert forall k :: 0 <= k < |fs| ==> !fs[k].Faulty?;
    NoFault(fs, None);
  }

  /** A chunk that is no matching package, or stands before every pool, answers nothing. */
  lemma NoHit(p: Part, package: nat, want: Wanted, strings: Option<seq<JsString>>)
    requires !p.PackagePart? || p.package.id % 0x100 != package || strings.None?
    ensures Hit(p, package, want, strings).None?
  {
  }

  lemma {:induction false} FirstPoolSoFar(ps: seq<part>, k: nat)
    requires k < |ps|
    ensures FirstPool(ps[..k + 1]) == if FirstPool(ps[..k]).Some? then FirstPool(ps[..k])
                                      else if ps[k].PoolPart? then Some(ps[k].p.strings) else None
    decreases k
  {
    if k == 0 {
      assert ps[..1][1..] == [];
    } else {
      assert ps[..k + 1][1..] == ps[1..][..k] && ps[..k][1..] == ps[1..][..k - 1];
      FirstPoolSoFar(ps[1..], k - 1);
    }
  }

  /** Looking from chunk `k` on, with the pool known so far, finds the first hit from there on. */
  lemma {:induction false} AnswerFrom(ps: seq<part>, k: nat, package: nat, want: Wanted)
    requires k <= |ps|
    requires forall j :: 0 <= j < k ==> Hit(ps[j], package, want, FirstPool(ps[..j])).None?
    ensures IsAnswer(ps, package, want, Answer(ps[k..], package, want, FirstPool(ps[..k])))
    decreases |ps| - k
  {
    hide FirstPool, Hit;
    if k < |ps| {
      assert ps[k..][0] == ps[k] && ps[k..][1..] == ps[k + 1..];
      FirstPoolSoFar(ps, k);
      PoolNeverHits(ps[k], package, want, FirstPool(ps[..k]));
      if Hit(ps[k], package, want, FirstPool(ps[..k])).None? {
        AnswerFrom(ps, k + 1, package, want);
      }
    } else {
      assert ps[k..] == [];
    }
  }

  lemma PoolNeverHits(p: Part, package: nat, want: Wanted, strings: Option<seq<JsString>>)
    ensures p.PoolPart? ==> Hit(p, package, want, strings).None?
  {
  }

  // ------------------------------------------------------------- main result

  /**
   * Resolving a resource id in an encoded table never faults and gives the answer of the first matching
   * package after the first string pool that has one; within a package that is the default
   * configuration's string, otherwise the first translation.
   */
  lemma TableInverse(ps: seq<part>, more: bytes, tail: bytes, resourceId: int)
    requires 8 <= |more| && 4 + |more| < 0x1_0000 && NoChunk(tail)
    ensures
      var id := resourceId % 0x1_0000_0000;
      var package, want := id / 0x100_0000, Wanted(id / 0x1_0000 % 0x100, id % 0x1_0000);
      var r := Resolve(Encode(ps, more, tail), resourceId);
      && r.Ok?
      && if package == 0 || want.type_ == 0 then r.value.None? else IsAnswer(ps, package, want, r.value)
  {
    hide U16At, LE16, ResolveIn, ChunksOf, IsAnswer, Answer;
    var buf, body := Encode(ps, more, tail), PartsBytes(ps, tail);
    assert buf[0..|buf|] == buf;
    HoldsSplit(buf, 0, LE16(RES_TABLE_TYPE), LE16(4 + |more|) + (more + body));
    HoldsSplit(buf, 2, LE16(4 + |more|), more + body);
    HoldsSplit(buf, 4, more, body);
    Held16(buf, 0, RES_TABLE_TYPE);
    Held16(buf, 2, 4 + |more|);
    var id := resourceId % 0x1_0000_0000;
    var package, want := id / 0x100_0000, Wanted(id / 0x1_0000 % 0x100, id % 0x1_0000);
    PartsInverse(buf, 4 + |more|, ps, tail, package, want, None, None);
    AnswerFrom(ps, 0, package, want);
    assert ps[0..] == ps && ps[..0] == [];
    assert FirstPool([]) == None;
  }
}
