/** Android's binary chunks: an eight-byte head with a kind, a header length and a size, then a body. */
module Chunks {
  import opened Bytes
  import opened Wrappers

  predicate IsU32(n: nat) { n < 0x1_0000_0000 }

  /** `header` counts from the start of the chunk and is only written down here. */
  function ChunkBytes(kind: nat, header: nat, body: bytes): (b: bytes)
    requires kind < 0x1_0000 && header < 0x1_0000 && 8 + |body| < 0x1_0000_0000
    ensures |b| == 8 + |body|
  {
    LE16(kind) + (LE16(header) + (LE32(8 + |body|) + body))
  }

  lemma Held16(buf: bytes, at: nat, n: nat)
    requires n < 0x1_0000 && Holds(buf, at, LE16(n))
    ensures at + 2 <= |buf| && U16At(buf, at) == n && ReadU16(buf, at) == Ok(n)
  {
    ReadInside(buf, at, LE16(n), 0);
    LE16Inverse(n);
  }

  lemma Held32(buf: bytes, at: nat, n: nat)
    requires IsU32(n) && Holds(buf, at, LE32(n))
    ensures at + 4 <= |buf| && U32At(buf, at) == n && ReadU32(buf, at) == Ok(n)
  {
    ReadInside(buf, at, LE32(n), 0);
    LE32Inverse(n);
  }

  lemma HeldLength(buf: bytes, at: nat, t: bytes)
    requires Holds(buf, at, t)
    ensures at + |t| <= |buf|
  {
  }

  lemma ChunkFields(buf: bytes, at: nat, kind: nat, header: nat, body: bytes)
    requires kind < 0x1_0000 && header < 0x1_0000 && 8 + |body| < 0x1_0000_0000
    requires Holds(buf, at, ChunkBytes(kind, header, body))
    ensures at + 8 + |body| <= |buf|
    ensures U16At(buf, at) == kind && U16At(buf, at + 2) == header && U32At(buf, at + 4) == 8 + |body|
    ensures Holds(buf, at + 8, body)
  {
    hide LE16, LE32, U16At, U32At;
    HoldsSplit(buf, at, LE16(kind), LE16(header) + (LE32(8 + |body|) + body));
    HoldsSplit(buf, at + 2, LE16(header), LE32(8 + |body|) + body);
    HoldsSplit(buf, at + 4, LE32(8 + |body|), body);
    Held16(buf, at, kind);
    Held16(buf, at + 2, header);
    Held32(buf, at + 4, 8 + |body|);
  }

  /** Bytes that start no whole chunk: too few, or a size that is too small or too large for them. */
  predicate NoChunk(tail: bytes) {
    |tail| < 8 || U32At(tail, 4) < 8 || U32At(tail, 4) > |tail|
  }

  lemma TailEnds(buf: bytes, at: nat, tail: bytes)
    requires Holds(buf, at, tail) && NoChunk(tail)
    ensures at + |tail| <= |buf|
    ensures at + 8 > at + |tail| || U32At(buf, at + 4) < 8 || U32At(buf, at + 4) > |tail|
  {
    HeldLength(buf, at, tail);
    ReadInside(buf, at, tail, 4);
  }
}
