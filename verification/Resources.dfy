/**
 * The resource table walk of `apk.ts`: `resolveStringResource`, `findEntryInPackage` and
 * `readEntryValue`, against a specification over the list of chunks.
 */
module Resources {
  import opened Bytes
  import opened StringPools
  import opened Unicode
  import opened Wrappers

  const RES_TABLE_TYPE: nat := 0x0002
  const RES_TABLE_PACKAGE_TYPE: nat := 0x0200
  const RES_TABLE_TYPE_TYPE: nat := 0x0201
  const NO_ENTRY: nat := 0xffff_ffff
  const TYPE_STRING: nat := 0x03

  // ------------------------------------------------------------------ chunks

  datatype Chunk = Chunk(at: nat, kind: nat, header: nat, size: nat)

  predicate AllFit(buf: bytes, cs: seq<Chunk>) {
    forall i :: 0 <= i < |cs| ==> cs[i].at + cs[i].size <= |buf|
  }

  /** The chunks laid end to end from `p`; a size that is too small or too large ends the list. */
  function ChunksOf(buf: bytes, p: nat, end: nat): (cs: seq<Chunk>)
    requires end <= |buf|
    ensures AllFit(buf, cs)
    decreases if p <= end then end - p else 0
  {
    if p + 8 > end then []
    else
      var size := U32At(buf, p + 4);
      if size < 8 || p + size > end then []
      else [Chunk(p, U16At(buf, p), U16At(buf, p + 2), size)] + ChunksOf(buf, p + size, end)
  }

  // ----------------------------------------------------------- one type chunk

  predicate Blank(s: JsString) {
    forall u <- s :: IsSpace(u)
  }

  /** A plain string entry's text: not a bag, not a reference, not blank. */
  function EntryValue(buf: bytes, at: nat, limit: nat, pool: Header): Option<JsString>
    requires limit <= |buf|
  {
    if at + 8 > limit then None
    else
      var valueAt := at + U16At(buf, at);
      if U16At(buf, at + 2) % 2 == 1 || valueAt + 8 > limit || buf[valueAt + 3] != TYPE_STRING then None
      else
        var s := Lookup(buf, pool, U32At(buf, valueAt + 4));
        if s.Some? && !Blank(s.value) then s else None
  }

  predicate AllZero(b: bytes) {
    forall i :: 0 <= i < |b| ==> b[i] == 0
  }

  /** A configuration whose bytes past its size field are all zero. */
  predicate IsDefault(buf: bytes, c: Chunk)
    requires c.at + c.size <= |buf|
  {
    var configAt := c.at + 20;
    var configSize := if configAt + 4 <= c.at + c.size then U32At(buf, configAt) else 0;
    && configSize > 0 && configAt + configSize <= c.at + c.size
    && AllZero(Subarray(buf, configAt + 4, configAt + configSize))
  }

  /** What one chunk of a package says about the wanted entry. `Faulty` is a read past the buffer. */
  datatype Finding = Nothing | Faulty | Default(value: JsString) | Translation(value: JsString)

  datatype Wanted = Wanted(type_: nat, entry: nat)

  function Inspect(buf: bytes, c: Chunk, want: Wanted, pool: Header): Finding
    requires c.at + c.size <= |buf|
  {
    if c.kind != RES_TABLE_TYPE_TYPE then Nothing
    else match ReadU8(buf, c.at + 8)
      case Err(_) => Faulty
      case Ok(type_) =>
        if type_ != want.type_ then Nothing
        else if c.at + 20 > |buf| then Faulty
        else InspectType(buf, c, want.entry, pool)
  }

  function InspectType(buf: bytes, c: Chunk, entry: nat, pool: Header): Finding
    requires c.at + c.size <= |buf| && c.at + 20 <= |buf|
  {
    var offsetAt := c.at + c.header + entry * 4;
    if entry >= U32At(buf, c.at + 12) || offsetAt + 4 > c.at + c.size then Nothing
    else
      var offset := U32At(buf, offsetAt);
      if offset == NO_ENTRY then Nothing
      else match EntryValue(buf, c.at + U32At(buf, c.at + 16) + offset, c.at + c.size, pool)
        case None => Nothing
        case Some(value) => if IsDefault(buf, c) then Default(value) else Translation(value)
  }

  function Findings(buf: bytes, cs: seq<Chunk>, want: Wanted, pool: Header): (fs: seq<Finding>)
    requires AllFit(buf, cs)
    ensures |fs| == |cs|
    ensures forall i :: 0 <= i < |cs| ==> fs[i] == Inspect(buf, cs[i], want, pool)
  {
    if cs == [] then [] else [Inspect(buf, cs[0], want, pool)] + Findings(buf, cs[1..], want, pool)
  }

  // ------------------------------------------------------------- one package

  /** The code's single pass: stop at a default or a fault, else keep the first translation. */
  function Choose(fs: seq<Finding>, fallback: Option<JsString>): Result<Option<JsString>, Fault> {
    if fs == [] then Ok(fallback)
    else match fs[0]
      case Faulty => Err(RangeError)
      case Default(value) => Ok(Some(value))
      case Translation(value) => Choose(fs[1..], if fallback.Some? then fallback else Some(value))
      case Nothing => Choose(fs[1..], fallback)
  }

  predicate Stops(f: Finding) {
    f.Default? || f.Faulty?
  }

  ghost predicate FirstStop(fs: seq<Finding>, i: nat) {
    i < |fs| && Stops(fs[i]) && forall j :: 0 <= j < i ==> !Stops(fs[j])
  }

  ghost predicate FirstTranslation(fs: seq<Finding>, i: nat) {
    i < |fs| && fs[i].Translation? && forall j :: 0 <= j < i ==> !fs[j].Translation?
  }

  /** The intended answer, without an order of evaluation. */
  ghost predicate Answers(fs: seq<Finding>, r: Result<Option<JsString>, Fault>) {
    if exists i: nat :: FirstStop(fs, i) then
      exists i: nat :: FirstStop(fs, i) && r == if fs[i].Faulty? then Err(RangeError) else Ok(Some(fs[i].value))
    else if exists i: nat :: FirstTranslation(fs, i) then
      exists i: nat :: FirstTranslation(fs, i) && r == Ok(Some(fs[i].value))
    else
      (forall i :: 0 <= i < |fs| ==> fs[i].Nothing?) && r == Ok(None)
  }

  lemma {:induction false} ChooseStops(fs: seq<Finding>, fallback: Option<JsString>, i: nat)
    requires FirstStop(fs, i)
    ensures Choose(fs, fallback) == if fs[i].Faulty? then Err(RangeError) else Ok(Some(fs[i].value))
  {
    if i > 0 {
      var next := if fs[0].Translation? && fallback.None? then Some(fs[0].value) else fallback;
      assert !Stops(fs[0]);
      assert FirstStop(fs[1..], i - 1);
      ChooseStops(fs[1..], next, i - 1);
    }
  }

  lemma {:induction false} ChooseFallback(fs: seq<Finding>, fallback: Option<JsString>)
    requires forall j :: 0 <= j < |fs| ==> !Stops(fs[j])
    ensures fallback.Some? ==> Choose(fs, fallback) == Ok(fallback)
    ensures fallback.None? ==>
      if forall j :: 0 <= j < |fs| ==> fs[j].Nothing? then Choose(fs, fallback) == Ok(None)
      else exists i: nat :: FirstTranslation(fs, i) && Choose(fs, fallback) == Ok(Some(fs[i].value))
  {
    if fs != [] {
      assert !Stops(fs[0]);
      var next := if fs[0].Translation? && fallback.None? then Some(fs[0].value) else fallback;
      ChooseFallback(fs[1..], next);
      if fallback.None? {
        if fs[0].Translation? {
          assert FirstTranslation(fs, 0);
        } else if !(forall j :: 0 <= j < |fs[1..]| ==> fs[1..][j].Nothing?) {
          var i: nat :| FirstTranslation(fs[1..], i) && Choose(fs[1..], next) == Ok(Some(fs[1..][i].value));
          assert forall j :: 0 <= j < i ==> !fs[1..][j].Translation? && fs[1..][j] == fs[j + 1];
          assert FirstTranslation(fs, i + 1);
        } else {
          assert forall j :: 1 <= j < |fs| ==> fs[j] == fs[1..][j - 1];
        }
      }
    }
  }

  lemma {:induction false} StopExists(fs: seq<Finding>, k: nat) returns (i: nat)
    requires k < |fs| && Stops(fs[k])
    ensures FirstStop(fs, i)
  {
    if j :| 0 <= j < k && Stops(fs[j]) {
      i := StopExists(fs, j);
    } else {
      i := k;
    }
  }

  /**
   * The pass gives the first default-configuration string wherever it appears, otherwise the first
   * translation, otherwise null; a read past the buffer throws unless a default came before it.
   */
  lemma ChooseAnswers(fs: seq<Finding>)
    ensures Answers(fs, Choose(fs, None))
  {
    if k :| 0 <= k < |fs| && Stops(fs[k]) {
      var i := StopExists(fs, k);
      ChooseStops(fs, None, i);
    } else {
      ChooseFallback(fs, None);
    }
  }

  method ReadEntryValue(buf: bytes, at: nat, limit: nat, pool: StringPool) returns (r: Option<JsString>)
    requires limit <= |buf| && pool.Valid() && pool.buf == buf
    modifies pool
    ensures pool.Valid()
    ensures r == EntryValue(buf, at, limit, pool.header)
  {
    hide Lookup, U16At, U32At, Blank;
    if at + 8 > limit {
      return None;
    }
    var entrySize := U16At(buf, at);
    var flags := U16At(buf, at + 2);
    if flags % 2 == 1 {
      return None;
    }
    var valueAt := at + entrySize;
    if valueAt + 8 > limit {
      return None;
    }
    var dataType := buf[valueAt + 3];
    var data := U32At(buf, valueAt + 4);
    if dataType != TYPE_STRING {
      return None;
    }
    var s := pool.Get(data);
    return if s.Some? && !Blank(s.value) then s else None;
  }

  /** The pass over the chunks from `p`, with `fallback` found so far. */
  function Pass(buf: bytes, p: nat, end: nat, want: Wanted, pool: Header, fallback: Option<JsString>)
    : Result<Option<JsString>, Fault>
    requires end <= |buf|
  {
    Choose(Findings(buf, ChunksOf(buf, p, end), want, pool), fallback)
  }

  lemma PassStep(buf: bytes, p: nat, end: nat, want: Wanted, pool: Header, fallback: Option<JsString>)
    requires end <= |buf|
    ensures
      if p + 8 > end || U32At(buf, p + 4) < 8 || p + U32At(buf, p + 4) > end then
        Pass(buf, p, end, want, pool, fallback) == Ok(fallback)
      else
        var c := Chunk(p, U16At(buf, p), U16At(buf, p + 2), U32At(buf, p + 4));
        Pass(buf, p, end, want, pool, fallback)
        == match Inspect(buf, c, want, pool)
           case Faulty => Err(RangeError)
           case Default(value) => Ok(Some(value))
           case Translation(value) =>
             Pass(buf, p + c.size, end, want, pool, if fallback.Some? then fallback else Some(value))
           case Nothing => Pass(buf, p + c.size, end, want, pool, fallback)
  {
    hide Inspect, U16At, U32At;
    var cs := ChunksOf(buf, p, end);
    if cs != [] {
      assert cs[1..] == ChunksOf(buf, p + cs[0].size, end);
      assert Findings(buf, cs, want, pool)[1..] == Findings(buf, cs[1..], want, pool);
    }
  }

  method FindEntryInPackage(buf: bytes, packageStart: nat, packageHeader: nat, packageSize: nat, want: Wanted, pool: StringPool)
    returns (r: Result<Option<JsString>, Fault>)
    requires packageStart + packageSize <= |buf| && pool.Valid() && pool.buf == buf
    modifies pool
    ensures pool.Valid()
    ensures r == Pass(buf, packageStart + packageHeader, packageStart + packageSize, want, pool.header, None)
  {
    hide EntryValue, Lookup, IsDefault, Pass, U16At, U32At;
    var fallback: Option<JsString> := None;
    var p := packageStart + packageHeader;
    var end := packageStart + packageSize;
    ghost var all := Pass(buf, p, end, want, pool.header, None);
    while p + 8 <= end
      invariant pool.Valid()
      invariant all == Pass(buf, p, end, want, pool.header, fallback)
      decreases |buf| - p
    {
      PassStep(buf, p, end, want, pool.header, fallback);
      var kind := U16At(buf, p);
      var headerSize := U16At(buf, p + 2);
      var size := U32At(buf, p + 4);
      if size < 8 || p + size > end {
        break;
      }
      if kind == RES_TABLE_TYPE_TYPE {
        var type_ :- ReadU8(buf, p + 8);
        if type_ == want.type_ {
          var entryCount :- ReadU32(buf, p + 12);
          var entriesStart :- ReadU32(buf, p + 16);
          if want.entry < entryCount {
            var offsetAt := p + headerSize + want.entry * 4;
            if offsetAt + 4 <= p + size {
              var offset := U32At(buf, offsetAt);
              if offset != NO_ENTRY {
                var value := ReadEntryValue(buf, p + entriesStart + offset, p + size, pool);
                if value.Some? {
                  if IsDefault(buf, Chunk(p, kind, headerSize, size)) {
                    return Ok(value);
                  }
                  fallback := if fallback.Some? then fallback else value;
                }
              }
            }
          }
        }
      }
      p := p + size;
    }
    PassStep(buf, p, end, want, pool.header, fallback);
    return Ok(fallback);
  }

  // ------------------------------------------------ a type chunk of any buffer

  /** The configuration has a size that fits the chunk, and nothing but zeros behind it. */
  ghost predicate Unqualified(buf: bytes, c: Chunk)
    requires c.at + c.size <= |buf|
  {
    && 24 <= c.size
    && 1 <= U32At(buf, c.at + 20) <= c.size - 20
    && forall i :: c.at + 24 <= i < c.at + 20 + U32At(buf, c.at + 20) ==> buf[i] == 0
  }

  lemma DefaultIsUnqualified(buf: bytes, c: Chunk)
    requires c.at + c.size <= |buf|
    ensures IsDefault(buf, c) <==> Unqualified(buf, c)
  {
    hide U32At;
    if 24 <= c.size && 1 <= U32At(buf, c.at + 20) <= c.size - 20 {
      var from, to := c.at + 24, c.at + 20 + U32At(buf, c.at + 20);
      var config := Subarray(buf, from, to);
      assert |config| == if from < to then to - from else 0;
      assert forall i :: 0 <= i < |config| ==> config[i] == buf[from + i];
      if AllZero(config) {
        forall i | from <= i < to
          ensures buf[i] == 0
        {
          assert config[i - from] == 0;
        }
      }
    }
  }

  /** The entry at `at` is a plain one with this string, inside the chunk, and the string is not blank. */
  ghost predicate HoldsText(buf: bytes, at: nat, limit: nat, pool: Header, text: JsString)
    requires limit <= |buf|
  {
    && at + 8 <= limit && U16At(buf, at + 2) % 2 == 0
    && var v := at + U16At(buf, at);
       && v + 8 <= limit && buf[v + 3] == 3
       && Lookup(buf, pool, U32At(buf, v + 4)) == Some(text) && exists u <- text :: !IsSpace(u)
  }

  /** The chunk's offset for this entry leads to this text. */
  ghost predicate Leads(buf: bytes, c: Chunk, entry: nat, pool: Header, text: JsString)
    requires c.at + c.size <= |buf| && c.at + 20 <= |buf|
  {
    && entry < U32At(buf, c.at + 12) && c.header + entry * 4 + 4 <= c.size
    && var offset := U32At(buf, c.at + c.header + entry * 4);
       && offset != 0xffff_ffff
       && HoldsText(buf, c.at + U32At(buf, c.at + 16) + offset, c.at + c.size, pool, text)
  }

  /** A chunk of the wanted type that leads to this text. */
  ghost predicate Gives(buf: bytes, c: Chunk, want: Wanted, pool: Header, text: JsString)
    requires c.at + c.size <= |buf|
  {
    && c.kind == 0x0201 && c.at + 20 <= |buf| && buf[c.at + 8] == want.type_
    && Leads(buf, c, want.entry, pool, text)
  }

  lemma TypeExactly(buf: bytes, c: Chunk, entry: nat, pool: Header, text: JsString)
    requires c.at + c.size <= |buf| && c.at + 20 <= |buf|
    ensures InspectType(buf, c, entry, pool) == Default(text) <==>
              Leads(buf, c, entry, pool, text) && IsDefault(buf, c)
    ensures InspectType(buf, c, entry, pool) == Translation(text) <==>
              Leads(buf, c, entry, pool, text) && !IsDefault(buf, c)
    ensures !InspectType(buf, c, entry, pool).Faulty?
  {
    hide U16At, U32At, IsDefault, EntryValue, HoldsText;
    var offsetAt := c.at + c.header + entry * 4;
    if entry < U32At(buf, c.at + 12) && offsetAt + 4 <= c.at + c.size {
      ValueExactly(buf, c.at + U32At(buf, c.at + 16) + U32At(buf, offsetAt), c.at + c.size, pool);
    }
  }

  /** What a chunk of any buffer says about the wanted entry, and when reading it faults. */
  lemma InspectExactly(buf: bytes, c: Chunk, want: Wanted, pool: Header, text: JsString)
    requires c.at + c.size <= |buf|
    ensures Inspect(buf, c, want, pool) == Default(text) <==> Gives(buf, c, want, pool, text) && Unqualified(buf, c)
    ensures Inspect(buf, c, want, pool) == Translation(text) <==>
              Gives(buf, c, want, pool, text) && !Unqualified(buf, c)
    ensures Inspect(buf, c, want, pool).Faulty? <==>
              c.kind == 0x0201 && (c.at + 8 >= |buf| || (buf[c.at + 8] == want.type_ && c.at + 20 > |buf|))
  {
    hide IsDefault, Unqualified, InspectType, Leads;
    DefaultIsUnqualified(buf, c);
    if c.at + 20 <= |buf| {
      TypeExactly(buf, c, want.entry, pool, text);
    }
  }

  lemma ValueExactly(buf: bytes, at: nat, limit: nat, pool: Header)
    requires limit <= |buf|
    ensures forall text: JsString ::
              EntryValue(buf, at, limit, pool) == Some(text) <==> HoldsText(buf, at, limit, pool, text)
  {
    hide U16At, U32At, Lookup, IsSpace;
  }

  // --------------------------------------------------------- the whole table

  /** The table's chunks in order: the first string pool serves every matching package after it. */
  function ResolveIn(buf: bytes, cs: seq<Chunk>, package: nat, want: Wanted, pool: Option<Header>)
    : Result<Option<JsString>, Fault>
    requires AllFit(buf, cs)
  {
    if cs == [] then Ok(None)
    else
      var c := cs[0];
      if c.kind == POOL_TYPE && pool.None? then
        var header :- ReadHeader(buf, c.at);
        ResolveIn(buf, cs[1..], package, want, Some(header))
      else if c.kind == RES_TABLE_PACKAGE_TYPE then
        var packageId :- ReadU32(buf, c.at + 8);
        if packageId % 0x100 != package || pool.None? then ResolveIn(buf, cs[1..], package, want, pool)
        else
          var hit :- Pass(buf, c.at + c.header, c.at + c.size, want, pool.value, None);
          if hit.Some? then Ok(hit) else ResolveIn(buf, cs[1..], package, want, pool)
      else ResolveIn(buf, cs[1..], package, want, pool)
  }

  function Resolve(buf: bytes, resourceId: int): Result<Option<JsString>, Fault> {
    var id := resourceId % 0x1_0000_0000;
    var package, type_, entry := id / 0x100_0000, id / 0x1_0000 % 0x100, id % 0x1_0000;
    if |buf| < 12 || U16At(buf, 0) != RES_TABLE_TYPE || package == 0 || type_ == 0 then Ok(None)
    else ResolveIn(buf, ChunksOf(buf, U16At(buf, 2), |buf|), package, Wanted(type_, entry), None)
  }

  method ResolveStringResource(buf: bytes, resourceId: int) returns (r: Result<Option<JsString>, Fault>)
    ensures r == Resolve(buf, resourceId)
  {
    hide Pass, ReadHeader, U16At, U32At, ReadU32;
    if |buf| < 12 || U16At(buf, 0) != RES_TABLE_TYPE {
      return Ok(None);
    }
    var id := resourceId % 0x1_0000_0000;
    var wantPackage, wantType, wantEntry := id / 0x100_0000, id / 0x1_0000 % 0x100, id % 0x1_0000;
    if wantPackage == 0 || wantType == 0 {
      return Ok(None);
    }
    var globalPool: StringPool? := null;
    var p := U16At(buf, 2);
    ghost var want := Wanted(wantType, wantEntry);
    ghost var all := ResolveIn(buf, ChunksOf(buf, p, |buf|), wantPackage, want, None);
    while p + 8 <= |buf|
      invariant globalPool != null ==> fresh(globalPool) && globalPool.Valid() && globalPool.buf == buf
      invariant
        all == ResolveIn(buf, ChunksOf(buf, p, |buf|), wantPackage, want,
                         if globalPool == null then None else Some(globalPool.header))
      decreases |buf| - p
    {
      var kind := U16At(buf, p);
      var chunkHeader := U16At(buf, p + 2);
      var size := U32At(buf, p + 4);
      if size < 8 || p + size > |buf| {
        break;
      }
      assert ChunksOf(buf, p, |buf|)[1..] == ChunksOf(buf, p + size, |buf|);
      if kind == POOL_TYPE && globalPool == null {
        var header :- ReadHeader(buf, p);
        globalPool := new StringPool(buf, header);
      } else if kind == RES_TABLE_PACKAGE_TYPE {
        var packageId :- ReadU32(buf, p + 8);
        if packageId % 0x100 == wantPackage && globalPool != null {
          var hit :- FindEntryInPackage(buf, p, chunkHeader, size, Wanted(wantType, wantEntry), globalPool);
          if hit.Some? {
            return Ok(hit);
          }
        }
      }
      p := p + size;
    }
    return Ok(None);
  }
}
