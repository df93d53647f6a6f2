/**
 * The zip half of `apk.ts`: the end-of-central-directory scan, the central directory walk and the
 * extraction of one entry, proved against an encoder of the format (PKWARE APPNOTE sections 4.3.7,
 * 4.3.12 and 4.3.16).
 */
module Zip {
  import opened Bytes
  import opened Unicode
  import opened Wrappers

  const EOCD_SIGNATURE: nat := 0x06054b50
  const CENTRAL_SIGNATURE: nat := 0x02014b50
  const LOCAL_SIGNATURE: nat := 0x04034b50
  const MAX_EOCD_SEARCH: nat := 22 + 0xffff

  datatype ZipEntry = ZipEntry(
    name: JsString,
    compression: nat,
    compressedSize: nat,
    uncompressedSize: nat,
    localOffset: nat)

  /** `readAt`: exactly `length` bytes of the file, or the parse error for a short read. */
  function ReadAt(file: bytes, offset: nat, length: nat): Result<bytes, Fault> {
    if length == 0 then Ok([])
    else if offset + length <= |file| then Ok(file[offset..offset + length])
    else Err(ApkParseError)
  }

  // ------------------------------------------------------------ specification

  predicate SignatureAt(s: bytes, i: nat) {
    i + 22 <= |s| && U32At(s, i) == EOCD_SIGNATURE
  }

  /** The last place below `limit` where an end record could start. */
  function LastSignature(s: bytes, limit: nat): (r: Option<nat>)
    ensures r.Some? ==> r.value < limit && SignatureAt(s, r.value)
    ensures forall i: nat :: SignatureAt(s, i) && i < limit ==> r.Some? && i <= r.value
  {
    if limit == 0 then None
    else if SignatureAt(s, limit - 1) then Some(limit - 1)
    else LastSignature(s, limit - 1)
  }

  /** Length of the central record at the front of `cd`. */
  function RecordLength(cd: bytes): nat
    requires |cd| >= 46
  {
    46 + U16At(cd, 28) + U16At(cd, 30) + U16At(cd, 32)
  }

  function EntryAt(cd: bytes): ZipEntry
    requires |cd| >= 46
  {
    ZipEntry(DecodeReplacing(Subarray(cd, 46, 46 + U16At(cd, 28))),
             U16At(cd, 10), U32At(cd, 20), U32At(cd, 24), U32At(cd, 42))
  }

  /** At most `count` records from the front of `cd`; a tail too short for one ends the list. */
  function EntriesOf(cd: bytes, count: nat): Result<seq<ZipEntry>, Fault>
    decreases count
  {
    if count == 0 || |cd| < 46 then Ok([])
    else if U32At(cd, 0) != CENTRAL_SIGNATURE then Err(ApkParseError)
    else
      var rest :- EntriesOf(Subarray(cd, RecordLength(cd), |cd|), count - 1);
      Ok([EntryAt(cd)] + rest)
  }

  /** The bytes the end record is looked for in. */
  function Tail(file: bytes): bytes {
    file[if |file| < MAX_EOCD_SEARCH then 0 else |file| - MAX_EOCD_SEARCH..]
  }

  function Directory(file: bytes): Result<seq<ZipEntry>, Fault> {
    if |file| < 22 then Err(ApkParseError)
    else
      var tail := Tail(file);
      match LastSignature(tail, |tail| - 21)
      case None => Err(ApkParseError)
      case Some(eocd) =>
        DirectoryFrom(file, U32At(tail, eocd + 16), U32At(tail, eocd + 12), U16At(tail, eocd + 10))
  }

  function DirectoryFrom(file: bytes, cdOffset: nat, cdSize: nat, count: nat): Result<seq<ZipEntry>, Fault> {
    if cdOffset + cdSize > |file| then Err(ApkParseError)
    else EntriesOf(file[cdOffset..cdOffset + cdSize], count)
  }

  // ------------------------------------------------------------------ the code

  /** The backwards scan: -1, or the last place an end record could start. */
  method ScanBackwards(tail: bytes) returns (eocd: int)
    requires |tail| >= 22
    ensures -1 <= eocd <= |tail| - 22
    ensures LastSignature(tail, |tail| - 21) == if eocd == -1 then None else Some(eocd)
  {
    var i := |tail| - 22;
    while i >= 0
      invariant -1 <= i <= |tail| - 22
      invariant LastSignature(tail, |tail| - 21) == LastSignature(tail, i + 1)
    {
      if U32At(tail, i) == EOCD_SIGNATURE {
        return i;
      }
      i := i - 1;
    }
    return -1;
  }

  /** The record at offset `p`, read where it lies. */
  function EntryFrom(cd: bytes, p: nat): ZipEntry
    requires p + 46 <= |cd|
  {
    ZipEntry(DecodeReplacing(Subarray(cd, p + 46, p + 46 + U16At(cd, p + 28))),
             U16At(cd, p + 10), U32At(cd, p + 20), U32At(cd, p + 24), U32At(cd, p + 42))
  }

  lemma WindowReads(file: bytes, a: nat, b: nat, i: nat)
    requires a <= b <= |file|
    ensures i + 2 <= b - a ==> U16At(file[a..b], i) == U16At(file, a + i)
    ensures i + 4 <= b - a ==> U32At(file[a..b], i) == U32At(file, a + i)
  {
    ReadInside(file, a, file[a..b], i);
  }

  /** The fixed fields of the record at offset `p`, read from the front of what is left from `p`. */
  lemma FieldsWindow(cd: bytes, p: nat)
    requires p + 46 <= |cd|
    ensures
      var left := Subarray(cd, p, |cd|);
      && |left| >= 46 && U32At(left, 0) == U32At(cd, p) && U16At(left, 10) == U16At(cd, p + 10)
      && U32At(left, 20) == U32At(cd, p + 20) && U32At(left, 24) == U32At(cd, p + 24)
      && U16At(left, 28) == U16At(cd, p + 28) && U16At(left, 30) == U16At(cd, p + 30)
      && U16At(left, 32) == U16At(cd, p + 32) && U32At(left, 42) == U32At(cd, p + 42)
  {
    LeftIs(cd, p);
    hide U16At, U32At, Subarray;
    WindowReads(cd, p, |cd|, 0);
    WindowReads(cd, p, |cd|, 10);
    WindowReads(cd, p, |cd|, 20);
    WindowReads(cd, p, |cd|, 24);
    WindowReads(cd, p, |cd|, 28);
    WindowReads(cd, p, |cd|, 30);
    WindowReads(cd, p, |cd|, 32);
    WindowReads(cd, p, |cd|, 42);
  }

  /** Reading at offset `p` is reading the front of what is left from `p`. */
  lemma RecordWindow(cd: bytes, p: nat)
    requires p + 46 <= |cd|
    ensures
      var left := Subarray(cd, p, |cd|);
      && |left| >= 46 && U32At(left, 0) == U32At(cd, p) && EntryAt(left) == EntryFrom(cd, p)
      && RecordLength(left) == 46 + U16At(cd, p + 28) + U16At(cd, p + 30) + U16At(cd, p + 32)
  {
    hide DecodeReplacing, U16At, U32At, Subarray;
    FieldsWindow(cd, p);
    SubarrayShift(cd, p, 46, 46 + U16At(cd, p + 28));
  }

  lemma LeftIs(cd: bytes, p: nat)
    requires p <= |cd|
    ensures Subarray(cd, p, |cd|) == cd[p..|cd|]
  {
  }

  /** What one turn of the walk at offset `p` contributes. */
  lemma WalkStep(cd: bytes, p: nat, count: nat, found: seq<ZipEntry>)
    requires count > 0 && p + 46 <= |cd|
    ensures
      var next := p + 46 + U16At(cd, p + 28) + U16At(cd, p + 30) + U16At(cd, p + 32);
      Prepend(found, EntriesOf(Subarray(cd, p, |cd|), count))
      == if U32At(cd, p) != CENTRAL_SIGNATURE then Err(ApkParseError)
         else Prepend(found + [EntryFrom(cd, p)], EntriesOf(Subarray(cd, next, |cd|), count - 1))
  {
    hide EntryAt, EntryFrom, RecordLength, U32At;
    RecordWindow(cd, p);
    var left := Subarray(cd, p, |cd|);
    SubarrayShift(cd, p, RecordLength(left), |left|);
    SubarrayShift(cd, p, RecordLength(left), |cd|);
    var rest := EntriesOf(Subarray(left, RecordLength(left), |left|), count - 1);
    if rest.Ok? {
      assert found + ([EntryFrom(cd, p)] + rest.value) == found + [EntryFrom(cd, p)] + rest.value;
    }
  }

  function Prepend(found: seq<ZipEntry>, rest: Result<seq<ZipEntry>, Fault>): Result<seq<ZipEntry>, Fault> {
    if rest.Ok? then Ok(found + rest.value) else rest
  }

  method WalkRecords(cd: bytes, entryCount: nat) returns (r: Result<seq<ZipEntry>, Fault>)
    ensures r == EntriesOf(cd, entryCount)
  {
    hide DecodeReplacing, U32At, U16At;
    var entries: seq<ZipEntry> := [];
    var p: nat, i: nat := 0, 0;
    assert Subarray(cd, 0, |cd|) == cd;
    assert EntriesOf(cd, entryCount).Ok? ==> [] + EntriesOf(cd, entryCount).value == EntriesOf(cd, entryCount).value;
    while i < entryCount && p + 46 <= |cd|
      invariant i <= entryCount
      invariant EntriesOf(cd, entryCount) == Prepend(entries, EntriesOf(Subarray(cd, p, |cd|), entryCount - i))
    {
      WalkStep(cd, p, entryCount - i, entries);
      if U32At(cd, p) != CENTRAL_SIGNATURE {
        return Err(ApkParseError);
      }
      var nameLen := U16At(cd, p + 28);
      var extraLen := U16At(cd, p + 30);
      var commentLen := U16At(cd, p + 32);
      entries := entries + [EntryFrom(cd, p)];
      p := p + 46 + nameLen + extraLen + commentLen;
      i := i + 1;
    }
    assert entries + [] == entries;
    return Ok(entries);
  }

  lemma TailRead(file: bytes)
    requires |file| >= 22
    ensures
      var n := if |file| < MAX_EOCD_SEARCH then |file| else MAX_EOCD_SEARCH;
      ReadAt(file, |file| - n, n) == Ok(Tail(file)) && |Tail(file)| == n
  {
    var n := if |file| < MAX_EOCD_SEARCH then |file| else MAX_EOCD_SEARCH;
    assert file[|file| - n..|file|] == file[|file| - n..] == Tail(file);
  }

  lemma DirectoryRead(file: bytes, at: nat, size: nat)
    requires at + size <= |file|
    ensures ReadAt(file, at, size) == Ok(file[at..at + size])
  {
    assert size == 0 ==> file[at..at + size] == [];
  }

  method ReadCentralDirectory(file: bytes) returns (r: Result<seq<ZipEntry>, Fault>)
    ensures r == Directory(file)
  {
    hide EntriesOf, LastSignature, U16At, U32At, ReadAt, Tail;
    if |file| < 22 {
      return Err(ApkParseError);
    }
    var tailLen := if |file| < MAX_EOCD_SEARCH then |file| else MAX_EOCD_SEARCH;
    TailRead(file);
    var tail := ReadAt(file, |file| - tailLen, tailLen).value;
    var eocd := ScanBackwards(tail);
    if eocd == -1 {
      return Err(ApkParseError);
    }
    var entryCount := U16At(tail, eocd + 10);
    var cdSize := U32At(tail, eocd + 12);
    var cdOffset := U32At(tail, eocd + 16);
    if cdOffset + cdSize > |file| {
      return Err(ApkParseError);
    }
    DirectoryRead(file, cdOffset, cdSize);
    var cd := ReadAt(file, cdOffset, cdSize).value;
    r := WalkRecords(cd, entryCount);
  }

  function FirstNamed(entries: seq<ZipEntry>, wanted: JsString): Option<ZipEntry> {
    if entries == [] then None
    else if entries[0].name == wanted then Some(entries[0])
    else FirstNamed(entries[1..], wanted)
  }

  /** zlib's raw inflate with its output limit; None is the error it throws. */
  type Inflate = (bytes, nat) -> Option<bytes>

  function ExtractEntry(file: bytes, entries: seq<ZipEntry>, wanted: JsString, maxBytes: nat, inflate: Inflate)
    : Result<Option<bytes>, Fault>
  {
    match FirstNamed(entries, wanted)
    case None => Ok(None)
    case Some(entry) =>
      if entry.uncompressedSize > maxBytes || entry.compressedSize > maxBytes then Err(ApkParseError)
      else
        var local :- ReadAt(file, entry.localOffset, 30);
        if U32At(local, 0) != LOCAL_SIGNATURE then Err(ApkParseError)
        else
          var dataStart := entry.localOffset + 30 + U16At(local, 26) + U16At(local, 28);
          var raw :- ReadAt(file, dataStart, entry.compressedSize);
          if entry.compression == 0 then Ok(Some(raw))
          else if entry.compression != 8 then Err(ApkParseError)
          else match inflate(raw, maxBytes)
            case Some(data) => Ok(Some(data))
            case None => Err(ApkParseError)
  }

  // --------------------------------------------------------------- the encoder

  /** One member of an archive, with every field either header carries. */
  datatype Member = Member(
    name: bytes, compression: nat, data: bytes, uncompressedSize: nat,
    versions: bytes, stamps: bytes, attributes: bytes, centralExtra: bytes, comment: bytes,
    localFields: bytes, localName: bytes, localExtra: bytes)

  predicate Fits(m: Member) {
    && |m.name| < 0x1_0000 && |m.centralExtra| < 0x1_0000 && |m.comment| < 0x1_0000
    && |m.localName| < 0x1_0000 && |m.localExtra| < 0x1_0000
    && m.compression < 0x1_0000 && |m.data| < 0x1_0000_0000 && m.uncompressedSize < 0x1_0000_0000
    && |m.versions| == 6 && |m.stamps| == 8 && |m.attributes| == 8 && |m.localFields| == 22
  }

  type member = m: Member | Fits(m)
    witness Member([], 0, [], 0, [0, 0, 0, 0, 0, 0], [0, 0, 0, 0, 0, 0, 0, 0], [0, 0, 0, 0, 0, 0, 0, 0], [], [],
                   [0, 0, 0, 0, 0, 0, 0, 0, 0, 0, 0, 0, 0, 0, 0, 0, 0, 0, 0, 0, 0, 0], [], [])

  function LocalHeader(m: member): (b: bytes)
    ensures |b| == 30
  {
    LE32(0x04034b50) + m.localFields + LE16(|m.localName|) + LE16(|m.localExtra|)
  }

  function Local(m: member): bytes {
    LocalHeader(m) + (m.localName + (m.localExtra + m.data))
  }

  function Locals(ms: seq<member>): bytes {
    if ms == [] then [] else Local(ms[0]) + Locals(ms[1..])
  }

  function CentralHeader(m: member, offset: nat): (b: bytes)
    requires offset < 0x1_0000_0000
    ensures |b| == 46
  {
    LE32(0x02014b50) + m.versions + LE16(m.compression) + m.stamps
    + LE32(|m.data|) + LE32(m.uncompressedSize)
    + LE16(|m.name|) + LE16(|m.centralExtra|) + LE16(|m.comment|) + m.attributes + LE32(offset)
  }

  function CentralRecord(m: member, offset: nat): bytes
    requires offset < 0x1_0000_0000
  {
    CentralHeader(m, offset) + m.name + m.centralExtra + m.comment
  }

  /** The directory of `ms` when the first local header is at `offset`. */
  function Central(ms: seq<member>, offset: nat): bytes
    requires offset + |Locals(ms)| < 0x1_0000_0000
  {
    if ms == [] then [] else CentralRecord(ms[0], offset) + Central(ms[1..], offset + |Local(ms[0])|)
  }

  function EndRecord(count: nat, cdSize: nat, cdOffset: nat, disks: bytes, comment: bytes): (b: bytes)
    requires count < 0x1_0000 && cdSize < 0x1_0000_0000 && cdOffset < 0x1_0000_0000
    requires |disks| == 6 && |comment| < 0x1_0000
    ensures |b| == 22 + |comment|
  {
    LE32(0x06054b50) + disks + LE16(count) + LE32(cdSize) + LE32(cdOffset) + LE16(|comment|) + comment
  }

  /** Members, then anything (an APK keeps its signing block there), then directory and end record. */
  datatype Archive = Archive(members: seq<member>, gap: bytes, disks: bytes, comment: bytes)

  predicate ArchiveFits(a: Archive) {
    && |a.members| < 0x1_0000
    && |Locals(a.members)| + |a.gap| < 0x1_0000_0000
    && |Central(a.members, 0)| < 0x1_0000_0000
    && |a.disks| == 6 && |a.comment| < 0x1_0000
  }

  function End(a: Archive): (b: bytes)
    requires ArchiveFits(a)
    ensures |b| == 22 + |a.comment|
  {
    EndRecord(|a.members|, |Central(a.members, 0)|, |Locals(a.members)| + |a.gap|, a.disks, a.comment)
  }

  function Encode(a: Archive): bytes
    requires ArchiveFits(a)
  {
    Locals(a.members) + a.gap + Central(a.members, 0) + End(a)
  }

  function Listing(ms: seq<member>, offset: nat): seq<ZipEntry> {
    if ms == [] then []
    else [ZipEntry(DecodeReplacing(ms[0].name), ms[0].compression, |ms[0].data|, ms[0].uncompressedSize, offset)]
         + Listing(ms[1..], offset + |Local(ms[0])|)
  }

  /** Some signature that a backwards scan meets before the real end record. */
  ghost predicate LaterSignature(end: bytes) {
    exists i :: 0 < i && SignatureAt(end, i)
  }

  // -------------------------------------------------------------------- proofs

  lemma HeaderFields(m: member, offset: nat, rest: bytes)
    requires offset < 0x1_0000_0000
    ensures
      var h := CentralHeader(m, offset) + rest;
      && U32At(h, 0) == CENTRAL_SIGNATURE && U16At(h, 10) == m.compression
      && U32At(h, 20) == |m.data| && U32At(h, 24) == m.uncompressedSize
      && U16At(h, 28) == |m.name| && U16At(h, 30) == |m.centralExtra| && U16At(h, 32) == |m.comment|
      && U32At(h, 42) == offset
  {
    var h := CentralHeader(m, offset) + rest;
    LE32Inverse(CENTRAL_SIGNATURE);
    LE32Inverse(|m.data|);
    LE32Inverse(m.uncompressedSize);
    LE32Inverse(offset);
    assert h[0..4] == LE32(CENTRAL_SIGNATURE);
    assert h[10..12] == LE16(m.compression);
    assert h[20..24] == LE32(|m.data|);
    assert h[24..28] == LE32(m.uncompressedSize);
    assert h[28..30] == LE16(|m.name|);
    assert h[30..32] == LE16(|m.centralExtra|);
    assert h[32..34] == LE16(|m.comment|);
    assert h[42..46] == LE32(offset);
  }

  /** The first record of an encoded directory reads back, and the walk resumes after it. */
  lemma RecordInverse(m: member, offset: nat, rest: bytes)
    requires offset < 0x1_0000_0000
    ensures
      var cd := CentralRecord(m, offset) + rest;
      && |cd| >= 46 && U32At(cd, 0) == CENTRAL_SIGNATURE
      && EntryAt(cd) == ZipEntry(DecodeReplacing(m.name), m.compression, |m.data|, m.uncompressedSize, offset)
      && Subarray(cd, RecordLength(cd), |cd|) == rest
  {
    hide DecodeReplacing;
    var cd := CentralRecord(m, offset) + rest;
    var after := m.name + m.centralExtra + m.comment + rest;
    assert cd == CentralHeader(m, offset) + after;
    HeaderFields(m, offset, after);
    assert Subarray(cd, 46, 46 + |m.name|) == m.name;
  }

  lemma {:induction false} EntriesInverse(ms: seq<member>, offset: nat)
    requires offset + |Locals(ms)| < 0x1_0000_0000
    ensures EntriesOf(Central(ms, offset), |ms|) == Ok(Listing(ms, offset))
  {
    hide DecodeReplacing, EntryAt, CentralRecord, Subarray, RecordLength;
    if ms != [] {
      var next := offset + |Local(ms[0])|;
      RecordInverse(ms[0], offset, Central(ms[1..], next));
      EntriesInverse(ms[1..], next);
    }
  }

  lemma EndFields(count: nat, cdSize: nat, cdOffset: nat, disks: bytes, comment: bytes)
    requires count < 0x1_0000 && cdSize < 0x1_0000_0000 && cdOffset < 0x1_0000_0000
    requires |disks| == 6 && |comment| < 0x1_0000
    ensures
      var e := EndRecord(count, cdSize, cdOffset, disks, comment);
      SignatureAt(e, 0) && U16At(e, 10) == count && U32At(e, 12) == cdSize && U32At(e, 16) == cdOffset
  {
    var e := EndRecord(count, cdSize, cdOffset, disks, comment);
    LE32Inverse(EOCD_SIGNATURE);
    LE32Inverse(cdSize);
    LE32Inverse(cdOffset);
    assert e[0..4] == LE32(EOCD_SIGNATURE);
    assert e[10..12] == LE16(count);
    assert e[12..16] == LE32(cdSize);
    assert e[16..20] == LE32(cdOffset);
  }

  /** The scan of `body + end` finds `end` itself exactly when no later signature exists. */
  lemma ScanFindsEndRecord(body: bytes, end: bytes)
    requires 22 <= |end| <= MAX_EOCD_SEARCH && SignatureAt(end, 0)
    ensures
      var tail := Tail(body + end);
      && |end| <= |tail| && tail[|tail| - |end|..] == end
      && (LastSignature(tail, |tail| - 21) == Some(|tail| - |end|) <==> !LaterSignature(end))
  {
    hide LastSignature, SignatureAt;
    var tail := Tail(body + end);
    var at := |tail| - |end|;
    assert tail[at..] == end;
    forall i: nat | i + 22 <= |end|
      ensures SignatureAt(tail, at + i) <==> SignatureAt(end, i)
    {
      SignatureMoves(tail, at, end, i);
    }
    assert SignatureAt(tail, at + 0);
    SignatureFits(tail);
    SignatureFits(end);
    var hit := LastSignature(tail, |tail| - 21).value;
    assert SignatureAt(end, hit - at);
    if LaterSignature(end) {
      var i: nat :| 0 < i && SignatureAt(end, i);
      assert SignatureAt(tail, at + i);
    }
  }

  lemma SignatureMoves(s: bytes, at: nat, t: bytes, i: nat)
    requires at + |t| == |s| && s[at..] == t && i + 22 <= |t|
    ensures SignatureAt(s, at + i) <==> SignatureAt(t, i)
  {
    assert s[at..at + |t|] == t;
    ReadInside(s, at, t, i);
  }

  lemma SignatureFits(s: bytes)
    ensures forall i: nat :: SignatureAt(s, i) ==> i + 22 <= |s|
  {
  }

  /** What a scan that finds `end` reads out of `body + end`. */
  lemma DirectoryAt(body: bytes, end: bytes)
    requires 22 <= |end| <= MAX_EOCD_SEARCH && SignatureAt(end, 0) && !LaterSignature(end)
    requires U32At(end, 16) + U32At(end, 12) <= |body|
    ensures Directory(body + end) == EntriesOf(body[U32At(end, 16)..U32At(end, 16) + U32At(end, 12)], U16At(end, 10))
  {
    hide EntriesOf, LastSignature, Tail;
    var file := body + end;
    ScanFindsEndRecord(body, end);
    var tail := Tail(file);
    var at := |tail| - |end|;
    ReadInside(tail, at, end, 10);
    ReadInside(tail, at, end, 12);
    ReadInside(tail, at, end, 16);
    var lo, hi := U32At(end, 16), U32At(end, 16) + U32At(end, 12);
    assert file[lo..hi] == body[lo..hi];
  }

  /** Reading back an encoded archive gives exactly its entry list. */
  lemma DirectoryInverse(a: Archive)
    requires ArchiveFits(a) && !LaterSignature(End(a))
    ensures Directory(Encode(a)) == Ok(Listing(a.members, 0))
  {
    hide EntriesOf, Listing, Directory, EndRecord;
    var locals, cd := Locals(a.members), Central(a.members, 0);
    var body := locals + a.gap + cd;
    EndFields(|a.members|, |cd|, |locals| + |a.gap|, a.disks, a.comment);
    DirectoryAt(body, End(a));
    assert body[|locals| + |a.gap|..|locals| + |a.gap| + |cd|] == cd;
    EntriesInverse(a.members, 0);
  }

  /**
   * The comment beside the scan says the last signature is the real one. It is not when the archive
   * comment carries a later one: any archive whose comment ends with an empty end record of its own
   * reads as empty.
   */
  lemma CommentHidesDirectory(a: Archive, front: bytes, inner: bytes)
    requires |inner| == 6
    requires a.comment == front + EndRecord(0, 0, 0, inner, [])
    requires ArchiveFits(a)
    ensures LaterSignature(End(a)) && Directory(Encode(a)) == Ok([])
  {
    hide LastSignature, Central;
    var fake := EndRecord(0, 0, 0, inner, []);
    EndFields(0, 0, 0, inner, []);
    assert !LaterSignature(fake);
    var e := End(a);
    var at := |e| - 22;
    assert e[at..] == fake;
    ReadInside(e, at, fake, 0);
    assert SignatureAt(e, at);
    var body := Encode(a)[..|Encode(a)| - 22];
    assert Encode(a) == body + fake;
    DirectoryAt(body, fake);
  }

  /** Where the local header of member `i` starts. */
  function OffsetOf(ms: seq<member>, i: nat): nat
    requires i <= |ms|
  {
    if i == 0 then 0 else |Local(ms[0])| + OffsetOf(ms[1..], i - 1)
  }

  lemma {:induction false} LocalHeld(file: bytes, at: nat, ms: seq<member>, i: nat)
    requires i < |ms| && Holds(file, at, Locals(ms))
    ensures Holds(file, at + OffsetOf(ms, i), Local(ms[i]))
    decreases i
  {
    hide Local, Holds;
    HoldsSplit(file, at, Local(ms[0]), Locals(ms[1..]));
    if i > 0 {
      LocalHeld(file, at + |Local(ms[0])|, ms[1..], i - 1);
    }
  }

  lemma {:induction false} ListingAt(ms: seq<member>, offset: nat, i: nat)
    requires i < |ms|
    ensures |Listing(ms, offset)| == |ms|
    ensures
      Listing(ms, offset)[i]
      == ZipEntry(DecodeReplacing(ms[i].name), ms[i].compression, |ms[i].data|, ms[i].uncompressedSize,
                  offset + OffsetOf(ms, i))
  {
    if i > 0 {
      ListingAt(ms[1..], offset + |Local(ms[0])|, i - 1);
    } else if |ms| > 1 {
      ListingAt(ms[1..], offset + |Local(ms[0])|, 0);
    }
  }

  lemma {:induction false} FirstNamedIs(entries: seq<ZipEntry>, i: nat, wanted: JsString)
    requires i < |entries| && entries[i].name == wanted
    requires forall j :: 0 <= j < i ==> entries[j].name != wanted
    ensures FirstNamed(entries, wanted) == Some(entries[i])
  {
    if i > 0 {
      FirstNamedIs(entries[1..], i - 1, wanted);
    }
  }

  lemma LocalFields(m: member)
    ensures
      var h := LocalHeader(m);
      && U32At(h, 0) == LOCAL_SIGNATURE && U16At(h, 26) == |m.localName| && U16At(h, 28) == |m.localExtra|
  {
    var h := LocalHeader(m);
    LE32Inverse(LOCAL_SIGNATURE);
    assert h[0..4] == LE32(LOCAL_SIGNATURE);
    assert h[26..28] == LE16(|m.localName|);
    assert h[28..30] == LE16(|m.localExtra|);
  }

  /** The two reads of an extraction land on the local header and on the data. */
  lemma LocalReads(file: bytes, at: nat, m: member)
    requires Holds(file, at, Local(m))
    ensures
      var h := LocalHeader(m);
      && ReadAt(file, at, 30) == Ok(h) && U32At(h, 0) == LOCAL_SIGNATURE
      && ReadAt(file, at + 30 + U16At(h, 26) + U16At(h, 28), |m.data|) == Ok(m.data)
  {
    hide LocalHeader, U16At, U32At;
    LocalFields(m);
    HoldsSplit(file, at, LocalHeader(m), m.localName + (m.localExtra + m.data));
    HoldsSplit(file, at + 30, m.localName, m.localExtra + m.data);
    HoldsSplit(file, at + 30 + |m.localName|, m.localExtra, m.data);
  }

  /**
   * Extracting by name from an encoded archive gives the first member of that name: its exact bytes
   * when stored, what inflate makes of them when deflated, and a refusal when either of the sizes it claims
   * is above the ceiling. The local name and extra field may have any length, whatever the central ones are.
   */
  lemma ExtractInverse(a: Archive, i: nat, maxBytes: nat, inflate: Inflate)
    requires ArchiveFits(a) && i < |a.members|
    requires forall j :: 0 <= j < i ==> DecodeReplacing(a.members[j].name) != DecodeReplacing(a.members[i].name)
    ensures
      var m := a.members[i];
      ExtractEntry(Encode(a), Listing(a.members, 0), DecodeReplacing(m.name), maxBytes, inflate)
      == if |m.data| > maxBytes || m.uncompressedSize > maxBytes then Err(ApkParseError)
         else if m.compression == 0 then Ok(Some(m.data))
         else if m.compression == 8 && inflate(m.data, maxBytes).Some? then Ok(inflate(m.data, maxBytes))
         else Err(ApkParseError)
  {
    hide Listing, FirstNamed, Central, DecodeReplacing, LocalHeader, U16At, U32At;
    var ms, m := a.members, a.members[i];
    assert Holds(Encode(a), 0, Locals(ms));
    forall j | 0 <= j <= i
      ensures |Listing(ms, 0)| == |ms| && Listing(ms, 0)[j].name == DecodeReplacing(ms[j].name)
    {
      ListingAt(ms, 0, j);
    }
    ListingAt(ms, 0, i);
    FirstNamedIs(Listing(ms, 0), i, DecodeReplacing(m.name));
    LocalHeld(Encode(a), 0, ms, i);
    LocalReads(Encode(a), OffsetOf(ms, i), m);
  }

  /** A name that no member has is not an error. */
  lemma MissingIsNull(a: Archive, wanted: JsString, maxBytes: nat, inflate: Inflate)
    requires ArchiveFits(a) && forall m <- a.members :: DecodeReplacing(m.name) != wanted
    ensures ExtractEntry(Encode(a), Listing(a.members, 0), wanted, maxBytes, inflate) == Ok(None)
  {
    hide Encode, DecodeReplacing, Listing, FirstNamed;
    NoneNamed(a.members, 0, wanted);
  }

  lemma {:induction false} NoneNamed(ms: seq<member>, offset: nat, wanted: JsString)
    requires forall m <- ms :: DecodeReplacing(m.name) != wanted
    ensures FirstNamed(Listing(ms, offset), wanted).None?
    decreases |ms|
  {
    hide DecodeReplacing, Local;
    if ms != [] {
      NoneNamed(ms[1..], offset + |Local(ms[0])|, wanted);
    }
  }

  // ------------------------------------------------------------- every file at all

  /** An end record starts here, close enough to the end, and no later one does. */
  ghost predicate IsEndRecord(file: bytes, at: nat) {
    && at + 22 <= |file| <= at + 65557 && U32At(file, at) == 0x06054b50
    && forall i :: at < i && i + 22 <= |file| ==> U32At(file, i) != 0x06054b50
  }

  /** The entry whose record starts here, in a directory that ends at `end`. */
  function EntryIn(file: bytes, at: nat, end: nat): ZipEntry
    requires at + 46 <= end <= |file|
  {
    var nameEnd := at + 46 + U16At(file, at + 28);
    ZipEntry(DecodeReplacing(file[at + 46..if nameEnd <= end then nameEnd else end]),
             U16At(file, at + 10), U32At(file, at + 20), U32At(file, at + 24), U32At(file, at + 42))
  }

  /** The records from `at` to `end`, `count` at most; each must carry the signature. */
  function RecordsIn(file: bytes, at: nat, end: nat, count: nat): Result<seq<ZipEntry>, Fault>
    requires end <= |file|
    decreases count
  {
    if count == 0 || at + 46 > end then Ok([])
    else if U32At(file, at) != 0x02014b50 then Err(ApkParseError)
    else
      var next := at + 46 + U16At(file, at + 28) + U16At(file, at + 30) + U16At(file, at + 32);
      var rest :- RecordsIn(file, next, end, count - 1);
      Ok([EntryIn(file, at, end)] + rest)
  }

  lemma SubWindow(file: bytes, a: nat, b: nat, i: nat, j: nat)
    requires a + i <= b <= |file| && i <= j
    ensures Subarray(file[a..b], i, j) == file[a + i..if a + j <= b then a + j else b]
  {
    var hi, cd := if a + j <= b then j else b - a, file[a..b];
    var part := cd[i..hi];
    assert forall k :: 0 <= k < hi - i ==> part[k] == cd[i + k] == file[a + i + k];
    assert part == file[a + i..a + hi];
    assert i == hi ==> part == [];
  }

  lemma EntryWindow(file: bytes, a: nat, b: nat)
    requires a + 46 <= b <= |file|
    ensures EntryAt(file[a..b]) == EntryIn(file, a, b)
    ensures U32At(file[a..b], 0) == U32At(file, a)
    ensures
      var next := a + 46 + U16At(file, a + 28) + U16At(file, a + 30) + U16At(file, a + 32);
      && next == a + RecordLength(file[a..b])
      && Subarray(file[a..b], next - a, b - a) == if next <= b then file[next..b] else []
  {
    hide DecodeReplacing, U16At, U32At;
    WindowReads(file, a, b, 0);
    WindowReads(file, a, b, 10);
    WindowReads(file, a, b, 20);
    WindowReads(file, a, b, 24);
    WindowReads(file, a, b, 28);
    WindowReads(file, a, b, 30);
    WindowReads(file, a, b, 32);
    WindowReads(file, a, b, 42);
    var nameEnd := a + 46 + U16At(file, a + 28);
    SubWindow(file, a, b, 46, 46 + U16At(file, a + 28));
  }

  lemma {:induction false} RecordsWindow(file: bytes, a: nat, b: nat, count: nat)
    requires a <= b <= |file|
    ensures EntriesOf(file[a..b], count) == RecordsIn(file, a, b, count)
    decreases count
  {
    hide EntryAt, EntryIn, U16At, U32At, Subarray, RecordLength;
    if count > 0 && a + 46 <= b {
      EntryWindow(file, a, b);
      var next := a + RecordLength(file[a..b]);
      if next <= b {
        RecordsWindow(file, next, b, count - 1);
      } else {
        assert EntriesOf([], count - 1) == Ok([]);
      }
    }
  }

  /**
   * What any file reads as: the records of the directory its last end record points at, looked for in the last
   * 65557 bytes; the parse error without one, if the directory runs past the end, or at a wrong signature.
   */
  lemma DirectoryExactly(file: bytes)
    ensures forall at: nat :: IsEndRecord(file, at) ==>
              var (count, size, offset) := (U16At(file, at + 10), U32At(file, at + 12), U32At(file, at + 16));
              Directory(file)
              == if offset + size > |file| then Err(ApkParseError) else RecordsIn(file, offset, offset + size, count)
    ensures (forall at: nat :: !IsEndRecord(file, at)) ==> Directory(file) == Err(ApkParseError)
  {
    hide U16At, U32At, EntriesOf, RecordsIn, IsEndRecord, LastSignature, SignatureAt;
    if |file| >= 22 {
      var last := LastSignature(Tail(file), |Tail(file)| - 21);
      EndIsLast(file);
      if last.Some? {
        var end := |file| - |Tail(file)| + last.value;
        DirectoryAtEnd(file, last.value);
        forall at: nat | IsEndRecord(file, at)
          ensures at == end
        {
          OneEndRecord(file, at, end);
        }
      }
    } else {
      TooShort(file);
    }
  }

  lemma TooShort(file: bytes)
    ensures |file| < 22 ==> forall at: nat :: !IsEndRecord(file, at)
  {
  }

  lemma OneEndRecord(file: bytes, at: nat, end: nat)
    requires IsEndRecord(file, at) && IsEndRecord(file, end)
    ensures at == end
  {
    hide U32At;
  }

  /** The scan of the tail finds the file's end record, if it has one. */
  lemma EndIsLast(file: bytes)
    requires |file| >= 22
    ensures
      var tail := Tail(file);
      match LastSignature(tail, |tail| - 21)
      case Some(eocd) => eocd + 22 <= |tail| && IsEndRecord(file, |file| - |tail| + eocd)
      case None => forall at: nat :: !IsEndRecord(file, at)
  {
    hide U32At, LastSignature;
    var tail := Tail(file);
    var base := |file| - |tail|;
    assert tail == file[base..|file|];
    forall i: nat | i + 22 <= |tail|
      ensures SignatureAt(tail, i) <==> U32At(file, base + i) == 0x06054b50
    {
      WindowReads(file, base, |file|, i);
    }
    forall at: nat | IsEndRecord(file, at)
      ensures at >= base && SignatureAt(tail, at - base)
    {
    }
    match LastSignature(tail, |tail| - 21)
    case Some(eocd) => LastIsEnd(file, tail, base, eocd);
    case None =>
  }

  lemma DirectoryAtEnd(file: bytes, eocd: nat)
    requires |file| >= 22 && eocd + 22 <= |Tail(file)|
    requires LastSignature(Tail(file), |Tail(file)| - 21) == Some(eocd)
    ensures
      var at := |file| - |Tail(file)| + eocd;
      var (count, size, offset) := (U16At(file, at + 10), U32At(file, at + 12), U32At(file, at + 16));
      Directory(file)
      == if offset + size > |file| then Err(ApkParseError) else RecordsIn(file, offset, offset + size, count)
  {
    hide U16At, U32At, EntriesOf, RecordsIn, LastSignature;
    var at := |file| - |Tail(file)| + eocd;
    var offset, size := U32At(file, at + 16), U32At(file, at + 12);
    FieldsInTail(file, |file| - |Tail(file)|, eocd);
    if offset + size <= |file| {
      RecordsWindow(file, offset, offset + size, U16At(file, at + 10));
    }
  }

  lemma FieldsInTail(file: bytes, base: nat, eocd: nat)
    requires base + eocd + 22 <= |file|
    ensures U16At(file[base..], eocd + 10) == U16At(file, base + eocd + 10)
    ensures U32At(file[base..], eocd + 12) == U32At(file, base + eocd + 12)
    ensures U32At(file[base..], eocd + 16) == U32At(file, base + eocd + 16)
  {
    assert file[base..] == file[base..|file|];
    WindowReads(file, base, |file|, eocd + 10);
    WindowReads(file, base, |file|, eocd + 12);
    WindowReads(file, base, |file|, eocd + 16);
  }

  lemma LastIsEnd(file: bytes, tail: bytes, base: nat, eocd: nat)
    requires |file| >= 22 && tail == Tail(file) && base == |file| - |tail|
    requires SignatureAt(tail, eocd) && forall i: nat :: SignatureAt(tail, i) ==> i <= eocd
    requires forall i: nat | i + 22 <= |tail| :: SignatureAt(tail, i) <==> U32At(file, base + i) == 0x06054b50
    ensures IsEndRecord(file, base + eocd)
  {
    hide U32At;
    forall i | base + eocd < i && i + 22 <= |file|
      ensures U32At(file, i) != 0x06054b50
    {
      assert !SignatureAt(tail, i - base);
    }
  }

  /** This entry's bytes are in the file, behind a local header with the signature. */
  ghost predicate Delivers(file: bytes, e: ZipEntry, maxBytes: nat, inflate: Inflate, data: bytes) {
    && e.uncompressedSize <= maxBytes && e.compressedSize <= maxBytes
    && e.localOffset + 30 <= |file| && U32At(file, e.localOffset) == 0x04034b50
    && var start := e.localOffset + 30 + U16At(file, e.localOffset + 26) + U16At(file, e.localOffset + 28);
       && (e.compressedSize == 0 || start + e.compressedSize <= |file|)
       && var raw := if e.compressedSize == 0 then [] else file[start..start + e.compressedSize];
          || (e.compression == 0 && data == raw)
          || (e.compression == 8 && inflate(raw, maxBytes) == Some(data))
  }

  ghost predicate FirstOfName(entries: seq<ZipEntry>, wanted: JsString, i: nat) {
    i < |entries| && entries[i].name == wanted && forall j :: 0 <= j < i ==> entries[j].name != wanted
  }

  lemma {:induction false} FirstNamedExactly(entries: seq<ZipEntry>, wanted: JsString)
    ensures forall i: nat :: FirstOfName(entries, wanted, i) ==> FirstNamed(entries, wanted) == Some(entries[i])
    ensures FirstNamed(entries, wanted).None? <==> forall i: nat :: !FirstOfName(entries, wanted, i)
    ensures FirstNamed(entries, wanted).None? <==> forall e <- entries :: e.name != wanted
    decreases |entries|
  {
    if entries != [] {
      FirstNamedExactly(entries[1..], wanted);
      if entries[0].name == wanted {
        assert FirstOfName(entries, wanted, 0);
      } else {
        assert forall j :: 0 <= j < |entries[1..]| ==> entries[1..][j] == entries[j + 1];
        forall i: nat
          ensures FirstOfName(entries, wanted, i) <==> i > 0 && FirstOfName(entries[1..], wanted, i - 1)
        {
          if i > 0 && FirstOfName(entries[1..], wanted, i - 1) {
            assert forall j :: 1 <= j < i ==> entries[j] == entries[1..][j - 1];
          }
        }
        assert forall i: nat :: FirstOfName(entries[1..], wanted, i) ==> FirstOfName(entries, wanted, i + 1);
        assert entries == [entries[0]] + entries[1..];
      }
    }
  }

  /**
   * What any file and any listing give: bytes exactly if the first entry of the name has them in the file, within
   * the ceiling and behind a local header's signature; null exactly if no entry has the name; otherwise an error.
   */
  lemma ExtractExactly(file: bytes, entries: seq<ZipEntry>, wanted: JsString, maxBytes: nat, inflate: Inflate,
                       data: bytes)
    ensures ExtractEntry(file, entries, wanted, maxBytes, inflate) == Ok(Some(data)) <==>
              exists i: nat :: FirstOfName(entries, wanted, i) && Delivers(file, entries[i], maxBytes, inflate, data)
    ensures ExtractEntry(file, entries, wanted, maxBytes, inflate) == Ok(None) <==>
              forall e <- entries :: e.name != wanted
  {
    FirstNamedExactly(entries, wanted);
    hide U16At, U32At, FirstNamed, FirstOfName;
    var first := FirstNamed(entries, wanted);
    if first.Some? {
      var i: nat :| FirstOfName(entries, wanted, i);
      FirstInRange(entries, wanted);
      var e := entries[i];
      if e.localOffset + 30 <= |file| {
        WindowReads(file, e.localOffset, e.localOffset + 30, 0);
        WindowReads(file, e.localOffset, e.localOffset + 30, 26);
        WindowReads(file, e.localOffset, e.localOffset + 30, 28);
      }
    }
  }

  lemma FirstInRange(entries: seq<ZipEntry>, wanted: JsString)
    ensures forall i: nat :: FirstOfName(entries, wanted, i) ==> i < |entries|
  {
  }
}
