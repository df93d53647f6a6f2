/**
 * Android string pools as `parseStringPool` in `apk.ts` reads them: two length encodings, decoded
 * lazily behind a cache. The encoder below is the format; looking up inverts it.
 */
module StringPools {
  import opened Bytes
  import opened Unicode
  import opened Wrappers

  const POOL_TYPE: nat := 0x0001
  const UTF8_FLAG: nat := 0x100

  datatype Header = Header(count: nat, utf8: bool, offsetsAt: nat, dataAt: nat)

  function ReadHeader(buf: bytes, start: nat): Result<Header, Fault> {
    var headerSize :- ReadU16(buf, start + 2);
    var stringCount :- ReadU32(buf, start + 8);
    var flags :- ReadU32(buf, start + 16);
    var stringsStart :- ReadU32(buf, start + 20);
    Ok(Header(stringCount, flags / UTF8_FLAG % 2 == 1, start + headerSize, start + stringsStart))
  }

  /** Code units from little-endian pairs; an odd last byte is dropped. */
  function Units(b: bytes): JsString {
    if |b| < 2 then [] else [U16At(b, 0)] + Units(b[2..])
  }

  /** One UTF-8 length: where the field ends, and its value. */
  function Utf8Length(buf: bytes, at: nat): Result<(nat, nat), Fault> {
    var v :- ReadU8(buf, at);
    if v < 0x80 then Ok((at + 1, v))
    else
      var low :- ReadU8(buf, at + 1);
      Ok((at + 2, (v - 0x80) * 0x100 + low))
  }

  /** The first UTF-8 length is only stepped over, so its second byte is never read. */
  function SkipLength(buf: bytes, at: nat): Result<nat, Fault> {
    var v :- ReadU8(buf, at);
    Ok(at + if v < 0x80 then 1 else 2)
  }

  function Utf16Length(buf: bytes, at: nat): Result<(nat, nat), Fault> {
    var v :- ReadU16(buf, at);
    if v < 0x8000 then Ok((at + 2, v))
    else
      var low :- ReadU16(buf, at + 2);
      Ok((at + 4, (v - 0x8000) * 0x1_0000 + low))
  }

  function DecodeAt(buf: bytes, utf8: bool, at: nat): Result<Option<JsString>, Fault> {
    if utf8 then
      var second :- SkipLength(buf, at);
      var (p, byteLen) :- Utf8Length(buf, second);
      if p + byteLen > |buf| then Ok(None)
      else Ok(Some(DecodeReplacing(buf[p..p + byteLen])))
    else
      var (p, len) :- Utf16Length(buf, at);
      if p + len * 2 > |buf| then Ok(None)
      else Ok(Some(Units(buf[p..p + len * 2])))
  }

  /** The uncached answer. A malformed entry is a missing string, never a throw. */
  function Lookup(buf: bytes, h: Header, index: int): Option<JsString> {
    if index < 0 || index >= h.count then None
    else
      var offset := ReadU32(buf, h.offsetsAt + index * 4);
      if offset.Err? then None
      else
        var value := DecodeAt(buf, h.utf8, h.dataAt + offset.value);
        if value.Ok? then value.value else None
  }

  /** The pool object: the buffer, the header read once, and the memo of what was asked before. */
  class StringPool {
    const buf: bytes
    const header: Header
    var cache: map<int, Option<JsString>>

    /** The memo never disagrees with plain decoding. */
    ghost predicate Valid()
      reads this
    {
      forall i <- cache :: cache[i] == Lookup(buf, header, i)
    }

    constructor (buf: bytes, header: Header)
      ensures Valid() && this.buf == buf && this.header == header && cache == map[]
    {
      this.buf := buf;
      this.header := header;
      cache := map[];
    }

    /** Every answer is the uncached one, so any sequence of lookups is too. */
    method Get(index: int) returns (r: Option<JsString>)
      requires Valid()
      modifies this
      ensures Valid() && r == Lookup(buf, header, index)
      ensures cache == if 0 <= index < header.count then old(cache)[index := r] else old(cache)
    {
      hide DecodeAt, ReadU32;
      if index < 0 || index >= header.count {
        return None;
      }
      if index in cache {
        return cache[index];
      }
      r := None;
      var offset := ReadU32(buf, header.offsetsAt + index * 4);
      if offset.Ok? {
        var value := DecodeAt(buf, header.utf8, header.dataAt + offset.value);
        if value.Ok? {
          r := value.value;
        }
      }
      cache := cache[index := r];
    }
  }

  // ------------------------------------------------------------ the encoder

  function Length8(n: nat): (b: bytes)
    requires n < 0x8000
  {
    if n < 0x80 then [n] else [0x80 + n / 0x100, n % 0x100]
  }

  function Length16(n: nat): (b: bytes)
    requires n < 0x8000_0000
  {
    if n < 0x8000 then LE16(n) else LE16(0x8000 + n / 0x1_0000) + LE16(n % 0x1_0000)
  }

  function UnitBytes(s: JsString): (b: bytes)
    ensures |b| == 2 * |s|
  {
    if s == [] then [] else LE16(s[0]) + UnitBytes(s[1..])
  }

  /** What an entry of each encoding can hold. */
  predicate Encodable(s: JsString, utf8: bool) {
    if utf8 then WellFormed(s) && |s| < 0x8000 && |Utf8(s)| < 0x8000 else |s| < 0x8000_0000
  }

  /** The lengths and the string, all that is read of an entry. */
  function Bare(s: JsString, utf8: bool): bytes
    requires Encodable(s, utf8)
  {
    if utf8 then Length8(|s|) + (Length8(|Utf8(s)|) + Utf8(s)) else Length16(|s|) + UnitBytes(s)
  }

  function Entry(s: JsString, utf8: bool): bytes
    requires Encodable(s, utf8)
  {
    Bare(s, utf8) + if utf8 then [0] else [0, 0]
  }

  function Entries(strings: seq<JsString>, utf8: bool): bytes
    requires forall s <- strings :: Encodable(s, utf8)
  {
    if strings == [] then [] else Entry(strings[0], utf8) + Entries(strings[1..], utf8)
  }

  /** Where entry `i` starts within the data. */
  function EntryOffset(strings: seq<JsString>, utf8: bool, i: nat): (n: nat)
    requires forall s <- strings :: Encodable(s, utf8)
    requires i <= |strings|
    ensures n <= |Entries(strings, utf8)|
  {
    if i == 0 then 0 else |Entry(strings[0], utf8)| + EntryOffset(strings[1..], utf8, i - 1)
  }

  function Offsets(strings: seq<JsString>, utf8: bool, base: nat): (b: bytes)
    requires forall s <- strings :: Encodable(s, utf8)
    requires base + |Entries(strings, utf8)| < 0x1_0000_0000
    ensures |b| == 4 * |strings|
  {
    if strings == [] then []
    else LE32(base) + Offsets(strings[1..], utf8, base + |Entry(strings[0], utf8)|)
  }

  /**
   * A pool; bit 8 of its flags says which encoding it is in. `more` extends the header, `styles` stands for the
   * style offsets between the string offsets and the data, and `pad` for what follows the data.
   */
  datatype Pool = Pool(
    strings: seq<JsString>, utf8: bool, flags: nat, styleCount: nat, more: bytes, styles: bytes, stylesStart: nat,
    pad: bytes)

  predicate PoolFits(p: Pool) {
    && |p.strings| < 0x1000_0000 && p.styleCount < 0x1_0000_0000 && p.stylesStart < 0x1_0000_0000
    && (forall s <- p.strings :: Encodable(s, p.utf8))
    && p.flags < 0x1_0000_0000 && (p.utf8 <==> p.flags / 0x100 % 2 == 1)
    && 28 + |p.more| < 0x1_0000
    && 28 + |p.more| + 4 * |p.strings| + |p.styles| + |Entries(p.strings, p.utf8)| + |p.pad| < 0x1_0000_0000
  }

  type pool = p: Pool | PoolFits(p) witness Pool([], false, 0, 0, [], [], 0, [])

  function DataStart(p: pool): nat {
    28 + |p.more| + 4 * |p.strings| + |p.styles|
  }

  function PoolSize(p: pool): (n: nat)
    ensures n < 0x1_0000_0000
  {
    DataStart(p) + |Entries(p.strings, p.utf8)| + |p.pad|
  }

  function HeaderBytes(header: nat, size: nat, count: nat, styleCount: nat, flags: nat, stringsStart: nat,
                       stylesStart: nat): (b: bytes)
    requires header < 0x1_0000 && size < 0x1_0000_0000 && count < 0x1_0000_0000 && styleCount < 0x1_0000_0000
    requires flags < 0x1_0000_0000 && stringsStart < 0x1_0000_0000 && stylesStart < 0x1_0000_0000
    ensures |b| == 28
  {
    LE16(0x0001) + LE16(header) + LE32(size) + LE32(count)
    + LE32(styleCount) + LE32(flags) + LE32(stringsStart) + LE32(stylesStart)
  }

  function PoolHeader(p: pool): (b: bytes)
    ensures |b| == 28
  {
    HeaderBytes(28 + |p.more|, PoolSize(p), |p.strings|, p.styleCount, p.flags, DataStart(p), p.stylesStart)
  }

  function EncodePool(p: pool): bytes {
    PoolHeader(p) + (p.more + (Offsets(p.strings, p.utf8, 0) + (p.styles + (Entries(p.strings, p.utf8) + p.pad))))
  }

  // ------------------------------------------------------------------ proofs

  lemma {:induction false} UnitsInverse(s: JsString)
    ensures Units(UnitBytes(s)) == s
  {
    if s != [] {
      UnitsInverse(s[1..]);
      assert UnitBytes(s)[2..] == UnitBytes(s[1..]);
    }
  }

  lemma Length8Inverse(buf: bytes, at: nat, n: nat)
    requires n < 0x8000 && Holds(buf, at, Length8(n))
    ensures SkipLength(buf, at) == Ok(at + |Length8(n)|)
    ensures Utf8Length(buf, at) == Ok((at + |Length8(n)|, n))
  {
    var t := Length8(n);
    HeldReads(buf, at, t);
    if n >= 0x80 {
      assert t == [t[0]] + [t[1]];
      HoldsSplit(buf, at, [t[0]], [t[1]]);
      HeldReads(buf, at + 1, [t[1]]);
    }
  }

  lemma Length16Inverse(buf: bytes, at: nat, n: nat)
    requires n < 0x8000_0000 && Holds(buf, at, Length16(n))
    ensures Utf16Length(buf, at) == Ok((at + |Length16(n)|, n))
  {
    if n < 0x8000 {
      HeldReads(buf, at, LE16(n));
    } else {
      var high, low := LE16(0x8000 + n / 0x1_0000), LE16(n % 0x1_0000);
      HoldsSplit(buf, at, high, low);
      HeldReads(buf, at, high);
      HeldReads(buf, at + 2, low);
    }
  }

  /** An entry decodes to its string wherever it stands, with or without anything behind it. */
  lemma EntryInverse(buf: bytes, at: nat, s: JsString, utf8: bool)
    requires Encodable(s, utf8) && Holds(buf, at, Bare(s, utf8))
    ensures DecodeAt(buf, utf8, at) == Ok(Some(s))
  {
    hide DecodeReplacing, SkipLength, Utf8Length, Utf16Length, Length8, Length16, Units, Utf8, WellFormed;
    if utf8 {
      var chars, len, body := Length8(|s|), Length8(|Utf8(s)|), Utf8(s);
      HoldsSplit(buf, at, chars, len + body);
      HoldsSplit(buf, at + |chars|, len, body);
      Length8Inverse(buf, at, |s|);
      Length8Inverse(buf, at + |chars|, |body|);
      DecodeInverse(s);
    } else {
      var len, body := Length16(|s|), UnitBytes(s);
      HoldsSplit(buf, at, len, body);
      Length16Inverse(buf, at, |s|);
      UnitsInverse(s);
    }
  }

  lemma EntryDecodes(buf: bytes, at: nat, s: JsString, utf8: bool)
    requires Encodable(s, utf8) && Holds(buf, at, Entry(s, utf8))
    ensures DecodeAt(buf, utf8, at) == Ok(Some(s))
  {
    hide Bare, DecodeAt, Holds;
    HoldsSplit(buf, at, Bare(s, utf8), if utf8 then [0] else [0, 0]);
    EntryInverse(buf, at, s, utf8);
  }

  lemma {:induction false} EntryHeld(buf: bytes, at: nat, strings: seq<JsString>, utf8: bool, i: nat)
    requires forall s <- strings :: Encodable(s, utf8)
    requires i < |strings| && Holds(buf, at, Entries(strings, utf8))
    ensures Holds(buf, at + EntryOffset(strings, utf8, i), Entry(strings[i], utf8))
    decreases i
  {
    hide Encodable, Entry, Holds;
    HoldsSplit(buf, at, Entry(strings[0], utf8), Entries(strings[1..], utf8));
    if i > 0 {
      EntryHeld(buf, at + |Entry(strings[0], utf8)|, strings[1..], utf8, i - 1);
    }
  }

  lemma {:induction false} OffsetHeld(buf: bytes, at: nat, strings: seq<JsString>, utf8: bool, base: nat, i: nat)
    requires forall s <- strings :: Encodable(s, utf8)
    requires base + |Entries(strings, utf8)| < 0x1_0000_0000
    requires i < |strings| && Holds(buf, at, Offsets(strings, utf8, base))
    ensures ReadU32(buf, at + i * 4) == Ok(base + EntryOffset(strings, utf8, i))
    decreases i
  {
    hide Encodable, Entry, Holds, ReadU32, U32At, LE32;
    var next := base + |Entry(strings[0], utf8)|;
    HoldsSplit(buf, at, LE32(base), Offsets(strings[1..], utf8, next));
    if i == 0 {
      HeldReads(buf, at, LE32(base));
      LE32Inverse(base);
    } else {
      OffsetHeld(buf, at + 4, strings[1..], utf8, next, i - 1);
    }
  }

  lemma HeaderFields(header: nat, size: nat, count: nat, styleCount: nat, flags: nat, stringsStart: nat,
                     stylesStart: nat)
    requires header < 0x1_0000 && size < 0x1_0000_0000 && count < 0x1_0000_0000 && styleCount < 0x1_0000_0000
    requires flags < 0x1_0000_0000 && stringsStart < 0x1_0000_0000 && stylesStart < 0x1_0000_0000
    ensures
      var h := HeaderBytes(header, size, count, styleCount, flags, stringsStart, stylesStart);
      && U16At(h, 0) == 0x0001 && U16At(h, 2) == header && U32At(h, 4) == size && U32At(h, 8) == count
      && U32At(h, 16) == flags && U32At(h, 20) == stringsStart
  {
    var h := HeaderBytes(header, size, count, styleCount, flags, stringsStart, stylesStart);
    LE16Inverse(0x0001);
    LE16Inverse(header);
    LE32Inverse(size);
    LE32Inverse(count);
    LE32Inverse(flags);
    LE32Inverse(stringsStart);
    assert h[0..2] == LE16(0x0001);
    assert h[2..4] == LE16(header);
    assert h[4..8] == LE32(size);
    assert h[8..12] == LE32(count);
    assert h[16..20] == LE32(flags);
    assert h[20..24] == LE32(stringsStart);
  }

  lemma HeaderInverse(buf: bytes, at: nat, p: pool)
    requires Holds(buf, at, PoolHeader(p))
    ensures ReadHeader(buf, at) == Ok(Header(|p.strings|, p.utf8, at + 28 + |p.more|, at + DataStart(p)))
    ensures U16At(buf, at) == 0x0001 && U32At(buf, at + 4) == PoolSize(p)
  {
    hide Entries, HeaderBytes, U16At, U32At;
    var h := PoolHeader(p);
    HeaderFields(28 + |p.more|, PoolSize(p), |p.strings|, p.styleCount, p.flags, DataStart(p), p.stylesStart);
    ReadInside(buf, at, h, 0);
    ReadInside(buf, at, h, 2);
    ReadInside(buf, at, h, 4);
    ReadInside(buf, at, h, 8);
    ReadInside(buf, at, h, 16);
    ReadInside(buf, at, h, 20);
  }

  /** The parts of a pool, each where the header says. */
  lemma PoolParts(buf: bytes, at: nat, p: pool)
    requires Holds(buf, at, EncodePool(p))
    ensures Holds(buf, at, PoolHeader(p)) && Holds(buf, at + 28 + |p.more|, Offsets(p.strings, p.utf8, 0))
    ensures Holds(buf, at + DataStart(p), Entries(p.strings, p.utf8))
    ensures |EncodePool(p)| == PoolSize(p)
  {
    hide Entries, Offsets, PoolHeader, Holds;
    var offsets, data := Offsets(p.strings, p.utf8, 0), Entries(p.strings, p.utf8);
    HoldsSplit5(buf, at, PoolHeader(p), p.more, offsets, p.styles, data + p.pad);
    HoldsSplit(buf, at + DataStart(p), data, p.pad);
  }

  /** Lookup inverts encoding, for every string of every pool lying anywhere in a buffer. */
  lemma PoolInverse(buf: bytes, at: nat, p: pool)
    requires Holds(buf, at, EncodePool(p))
    ensures ReadHeader(buf, at).Ok?
    ensures
      forall i: int ::
        Lookup(buf, ReadHeader(buf, at).value, i) == if 0 <= i < |p.strings| then Some(p.strings[i]) else None
  {
    hide Entry, Encodable, ReadHeader, Holds, DecodeAt, ReadU32, EntryOffset, Entries, Offsets, PoolHeader, EncodePool;
    PoolParts(buf, at, p);
    HeaderInverse(buf, at, p);
    forall i: int | 0 <= i < |p.strings|
      ensures Lookup(buf, ReadHeader(buf, at).value, i) == Some(p.strings[i])
    {
      OffsetHeld(buf, at + 28 + |p.more|, p.strings, p.utf8, 0, i);
      EntryHeld(buf, at + DataStart(p), p.strings, p.utf8, i);
      EntryDecodes(buf, at + DataStart(p) + EntryOffset(p.strings, p.utf8, i), p.strings[i], p.utf8);
    }
  }

  /** A pool is a chunk: its kind and size stand where a walk over chunks reads them. */
  lemma PoolFields(buf: bytes, at: nat, p: pool)
    requires Holds(buf, at, EncodePool(p))
    ensures |EncodePool(p)| >= 28 && at + |EncodePool(p)| <= |buf|
    ensures U16At(buf, at) == POOL_TYPE && U32At(buf, at + 4) == |EncodePool(p)|
  {
    HeldInside(buf, at, EncodePool(p));
    hide Entries, Offsets, Encodable, U16At, U32At, PoolHeader, Holds, EncodePool;
    PoolParts(buf, at, p);
    HeaderInverse(buf, at, p);
  }

  lemma HeldInside(buf: bytes, at: nat, t: bytes)
    requires Holds(buf, at, t)
    ensures at + |t| <= |buf|
  {
  }
}
