/** Node's `Buffer`: bytes, and little-endian reads that throw `RangeError` outside the buffer. */
module Bytes {
  import opened Wrappers

  type byte = b: int | 0 <= b < 0x100

  type bytes = seq<byte>

  /** What a parser in `apk.ts` can throw: its own error, or the one an out-of-range read throws. */
  datatype Fault = RangeError | ApkParseError

  function U16At(s: bytes, p: nat): (n: nat)
    requires p + 2 <= |s|
    ensures n < 0x1_0000
  {
    s[p] as int + 0x100 * s[p + 1] as int
  }

  function U32At(s: bytes, p: nat): (n: nat)
    requires p + 4 <= |s|
    ensures n < 0x1_0000_0000
  {
    U16At(s, p) + 0x1_0000 * U16At(s, p + 2)
  }

  function ReadU8(s: bytes, p: nat): Result<nat, Fault> {
    if p + 1 <= |s| then Ok(s[p]) else Err(RangeError)
  }

  function ReadU16(s: bytes, p: nat): Result<nat, Fault> {
    if p + 2 <= |s| then Ok(U16At(s, p)) else Err(RangeError)
  }

  function ReadU32(s: bytes, p: nat): Result<nat, Fault> {
    if p + 4 <= |s| then Ok(U32At(s, p)) else Err(RangeError)
  }

  /** `readInt32LE`: the same four bytes as a two's-complement number. */
  function ReadI32(s: bytes, p: nat): Result<int, Fault> {
    if p + 4 > |s| then Err(RangeError)
    else
      var n := U32At(s, p);
      Ok(if n < 0x8000_0000 then n else n - 0x1_0000_0000)
  }

  /** `buf.subarray(from, to)`, which clamps both ends to the buffer. */
  function Subarray(s: bytes, from: nat, to: nat): bytes {
    var hi := if to < |s| then to else |s|;
    if from < hi then s[from..hi] else []
  }

  function LE16(n: nat): (s: bytes)
    requires n < 0x1_0000
    ensures |s| == 2
  {
    [n % 0x100, n / 0x100]
  }

  function LE32(n: nat): (s: bytes)
    requires n < 0x1_0000_0000
    ensures |s| == 4
  {
    [n % 0x100, n / 0x100 % 0x100, n / 0x1_0000 % 0x100, n / 0x100_0000]
  }

  lemma LE16Inverse(n: nat)
    requires n < 0x1_0000
    ensures U16At(LE16(n), 0) == n
  {
  }

  lemma LE32Inverse(n: nat)
    requires n < 0x1_0000_0000
    ensures U32At(LE32(n), 0) == n
  {
    assert n == n / 0x100 * 0x100 + n % 0x100;
    assert n / 0x100 == n / 0x1_0000 * 0x100 + n / 0x100 % 0x100;
    assert n / 0x1_0000 == n / 0x100_0000 * 0x100 + n / 0x1_0000 % 0x100;
  }

  /** A read inside a stretch of the buffer is the read of the stretch. */
  lemma ReadInside(s: bytes, at: nat, t: bytes, p: nat)
    requires at + |t| <= |s| && s[at..at + |t|] == t
    ensures p + 2 <= |t| ==> U16At(s, at + p) == U16At(t, p)
    ensures p + 4 <= |t| ==> U32At(s, at + p) == U32At(t, p)
  {
    var u := s[at..at + |t|];
    assert p + 2 <= |t| ==> u[p] == s[at + p] && u[p + 1] == s[at + p + 1];
    assert p + 4 <= |t| ==> u[p + 2] == s[at + p + 2] && u[p + 3] == s[at + p + 3];
  }

  lemma SubarrayShift(s: bytes, p: nat, from: nat, to: nat)
    requires p <= |s|
    ensures Subarray(Subarray(s, p, |s|), from, to) == Subarray(s, p + from, p + to)
  {
    var t := Subarray(s, p, |s|);
    assert t == s[p..];
  }

  /** `t` lies in `s` at offset `at`. */
  ghost predicate Holds(s: bytes, at: nat, t: bytes) {
    at + |t| <= |s| && s[at..at + |t|] == t
  }

  lemma HoldsSplit(s: bytes, at: nat, a: bytes, b: bytes)
    requires Holds(s, at, a + b)
    ensures Holds(s, at, a) && Holds(s, at + |a|, b)
  {
    var t := s[at..at + |a + b|];
    assert s[at..at + |a|] == t[..|a|] == a;
    assert s[at + |a|..at + |a| + |b|] == t[|a|..] == b;
  }

  /** The same for five stretches in a row. */
  lemma HoldsSplit5(s: bytes, at: nat, a: bytes, b: bytes, c: bytes, d: bytes, e: bytes)
    requires Holds(s, at, a + (b + (c + (d + e))))
    ensures Holds(s, at, a) && Holds(s, at + |a|, b) && Holds(s, at + |a| + |b|, c)
    ensures Holds(s, at + |a| + |b| + |c|, d) && Holds(s, at + |a| + |b| + |c| + |d|, e)
  {
    hide Holds;
    HoldsSplit(s, at, a, b + (c + (d + e)));
    HoldsSplit(s, at + |a|, b, c + (d + e));
    HoldsSplit(s, at + |a| + |b|, c, d + e);
    HoldsSplit(s, at + |a| + |b| + |c|, d, e);
  }

  lemma HeldReads(s: bytes, at: nat, t: bytes)
    requires Holds(s, at, t)
    ensures |t| >= 1 ==> ReadU8(s, at) == Ok(t[0])
    ensures |t| >= 2 ==> ReadU16(s, at) == Ok(U16At(t, 0))
    ensures |t| >= 4 ==> ReadU32(s, at) == Ok(U32At(t, 0))
  {
    ReadInside(s, at, t, 0);
    assert |t| >= 1 ==> s[at..at + |t|][0] == s[at];
  }
}
