/**
 * JavaScript strings (sequences of UTF-16 code units) and the UTF-8 conversions the parsers use:
 * the replacing decoder behind `Buffer.toString('utf8')` and the strict one behind
 * `decodeURIComponent` (RFC 3629 section 3).
 */
module Unicode {
  import opened Bytes
  import opened Wrappers

  type u16 = u: int | 0 <= u < 0x1_0000

  type JsString = seq<u16>

  /** A Unicode scalar value: any code point that is not a surrogate. */
  type scalar = c: int | 0 <= c <= 0x10_ffff && !(0xd800 <= c <= 0xdfff)

  const REPLACEMENT: scalar := 0xfffd

  /** A Dafny literal as a JavaScript string. The literals used here are all ASCII. */
  function Js(s: string): (r: JsString)
    ensures |r| == |s|
    ensures forall k :: 0 <= k < |s| ==> r[k] == (s[k] as int) % 0x1_0000
  {
    seq(|s|, k requires 0 <= k < |s| => (s[k] as int) % 0x1_0000)
  }

  predicate StartsWith(s: JsString, part: JsString) {
    |part| <= |s| && s[..|part|] == part
  }

  predicate EndsWith(s: JsString, part: JsString) {
    |part| <= |s| && s[|s| - |part|..] == part
  }

  /** JavaScript white space: what `\s` matches and what `trim` removes. */
  predicate IsSpace(u: u16) {
    9 <= u <= 13 || u in {0x20, 0xa0, 0x1680, 0x2028, 0x2029, 0x202f, 0x205f, 0x3000, 0xfeff} || 0x2000 <= u <= 0x200a
  }

  predicate IsDigit(u: u16) { 0x30 <= u <= 0x39 }

  predicate IsLetter(u: u16) { 0x41 <= u <= 0x5a || 0x61 <= u <= 0x7a }

  /** What `\w` matches. */
  predicate IsWord(u: u16) { IsLetter(u) || IsDigit(u) || u == 0x5f }

  // ------------------------------------------------------------------ UTF-16

  predicate IsHigh(u: u16) { 0xd800 <= u <= 0xdbff }

  predicate IsLow(u: u16) { 0xdc00 <= u <= 0xdfff }

  predicate StartsPair(s: JsString) {
    |s| >= 2 && IsHigh(s[0]) && IsLow(s[1])
  }

  function Utf16(c: scalar): (s: JsString)
    ensures 1 <= |s| <= 2
  {
    if c < 0x1_0000 then [c]
    else [0xd800 + (c - 0x1_0000) / 0x400, 0xdc00 + (c - 0x1_0000) % 0x400]
  }

  /** No lone surrogate: the strings `encodeURIComponent` accepts and UTF-8 can carry. */
  predicate WellFormed(s: JsString) {
    if s == [] then true
    else if StartsPair(s) then WellFormed(s[2..])
    else !IsHigh(s[0]) && !IsLow(s[0]) && WellFormed(s[1..])
  }

  /** The scalar a surrogate pair stands for. */
  function PairValue(s: JsString): (c: scalar)
    requires StartsPair(s)
    ensures Utf16(c) == s[..2]
  {
    0x1_0000 + (s[0] as int - 0xd800) * 0x400 + (s[1] as int - 0xdc00)
  }

  /** The first scalar of a well-formed string. */
  function First(s: JsString): (c: scalar)
    requires s != [] && WellFormed(s)
    ensures |Utf16(c)| <= |s| && s[..|Utf16(c)|] == Utf16(c)
    ensures WellFormed(s[|Utf16(c)|..])
  {
    if StartsPair(s) then PairValue(s) else s[0]
  }

  // ------------------------------------------------------------------- UTF-8

  function Utf8Of(c: scalar): (b: bytes)
    ensures 1 <= |b| <= 4
  {
    if c < 0x80 then [c]
    else if c < 0x800 then [0xc0 + c / 0x40, 0x80 + c % 0x40]
    else if c < 0x1_0000 then [0xe0 + c / 0x1000, 0x80 + c / 0x40 % 0x40, 0x80 + c % 0x40]
    else [0xf0 + c / 0x4_0000, 0x80 + c / 0x1000 % 0x40, 0x80 + c / 0x40 % 0x40, 0x80 + c % 0x40]
  }

  function Utf8(s: JsString): bytes
    requires WellFormed(s)
  {
    if s == [] then [] else Utf8Of(First(s)) + Utf8(s[|Utf16(First(s))|..])
  }

  /** Length in bytes announced by a lead byte, or 0 for a byte that cannot lead. */
  function SequenceLength(lead: byte): (n: nat)
    ensures n <= 4
  {
    if lead < 0x80 then 1
    else if 0xc2 <= lead <= 0xdf then 2
    else if 0xe0 <= lead <= 0xef then 3
    else if 0xf0 <= lead <= 0xf4 then 4
    else 0
  }

  /** Which second bytes keep the sequence shortest-form, non-surrogate and below U+110000. */
  predicate SecondFits(lead: byte, second: byte) {
    && (if lead == 0xe0 then 0xa0 else if lead == 0xf0 then 0x90 else 0x80) <= second
    && second <= (if lead == 0xed then 0x9f else if lead == 0xf4 then 0x8f else 0xbf)
  }

  predicate Continues(b: byte) { 0x80 <= b <= 0xbf }

  /**
   * One step of the decoder: the scalar at the front, or None for a malformed sequence, and how many
   * bytes the step consumes. A malformed sequence consumes its maximal valid prefix, at least one byte.
   */
  function DecodeOne(b: bytes): (r: (Option<scalar>, nat))
    requires b != []
    ensures 1 <= r.1 <= |b|
  {
    var n := SequenceLength(b[0]);
    if n == 1 then (Some(b[0]), 1)
    else if n == 0 || |b| == 1 || !SecondFits(b[0], b[1]) then (None, 1)
    else if n == 2 then (Some((b[0] as int - 0xc0) * 0x40 + (b[1] as int - 0x80)), 2)
    else if |b| == 2 || !Continues(b[2]) then (None, 2)
    else if n == 3 then (Some((b[0] as int - 0xe0) * 0x1000 + (b[1] as int - 0x80) * 0x40 + (b[2] as int - 0x80)), 3)
    else if |b| == 3 || !Continues(b[3]) then (None, 3)
    else (Some((b[0] as int - 0xf0) * 0x4_0000 + (b[1] as int - 0x80) * 0x1000 + (b[2] as int - 0x80) * 0x40 + (b[3] as int - 0x80)), 4)
  }

  /** `Buffer.toString('utf8')`: malformed sequences become U+FFFD. */
  function DecodeReplacing(b: bytes): JsString {
    if b == [] then []
    else
      var (c, n) := DecodeOne(b);
      Utf16(if c.Some? then c.value else REPLACEMENT) + DecodeReplacing(b[n..])
  }

  /** One step of the decoder undoes the encoding of one scalar, whatever follows it. */
  lemma DecodeOneInverse(c: scalar, rest: bytes)
    ensures DecodeOne(Utf8Of(c) + rest) == (Some(c), |Utf8Of(c)|)
  {
    var u, b := Utf8Of(c), Utf8Of(c) + rest;
    assert forall k :: 0 <= k < |u| ==> b[k] == u[k];
    if c < 0x80 {
    } else if c < 0x800 {
      TwoBytes(c);
    } else if c < 0x1_0000 {
      ThreeBytes(c);
    } else {
      FourBytes(c);
    }
  }

  /** What the decoder takes for a scalar is its encoding: no longer form, no surrogate, nothing past U+10FFFF. */
  lemma DecodeOneIsStrict(b: bytes)
    requires b != [] && DecodeOne(b).0.Some?
    ensures DecodeOne(b).1 <= |b| && b[..DecodeOne(b).1] == Utf8Of(DecodeOne(b).0.value)
  {
    var n, c: int := SequenceLength(b[0]), DecodeOne(b).0.value;
    if n == 2 {
      Digits2(b[0] as int - 0xc0, b[1] as int - 0x80);
    } else if n == 3 {
      Digits3(b[0] as int - 0xe0, b[1] as int - 0x80, b[2] as int - 0x80);
    } else if n == 4 {
      Digits4(b[0] as int - 0xf0, b[1] as int - 0x80, b[2] as int - 0x80, b[3] as int - 0x80);
    }
  }

  lemma Digits2(x: nat, y: nat)
    requires y < 0x40
    ensures (x * 0x40 + y) / 0x40 == x && (x * 0x40 + y) % 0x40 == y
  {
  }

  lemma Digits3(x: nat, y: nat, z: nat)
    requires y < 0x40 && z < 0x40
    ensures
      var c := x * 0x1000 + y * 0x40 + z;
      c / 0x1000 == x && c / 0x40 % 0x40 == y && c % 0x40 == z
  {
    var c := x * 0x1000 + y * 0x40 + z;
    assert c == (x * 0x40 + y) * 0x40 + z;
    Digits2(x * 0x40 + y, z);
    Digits2(x, y);
    assert c / 0x1000 == c / 0x40 / 0x40;
  }

  lemma Digits4(w: nat, x: nat, y: nat, z: nat)
    requires x < 0x40 && y < 0x40 && z < 0x40
    ensures
      var c := w * 0x4_0000 + x * 0x1000 + y * 0x40 + z;
      c / 0x4_0000 == w && c / 0x1000 % 0x40 == x && c / 0x40 % 0x40 == y && c % 0x40 == z
  {
    var c := w * 0x4_0000 + x * 0x1000 + y * 0x40 + z;
    assert c == (w * 0x40 + x) * 0x1000 + y * 0x40 + z;
    Digits3(w * 0x40 + x, y, z);
    Digits2(w, x);
    assert c / 0x4_0000 == c / 0x1000 / 0x40;
  }

  lemma TwoBytes(c: scalar)
    requires 0x80 <= c < 0x800
    ensures 2 <= c / 0x40 < 0x20 && c == c / 0x40 * 0x40 + c % 0x40
  {
  }

  lemma ThreeBytes(c: scalar)
    requires 0x800 <= c < 0x1_0000
    ensures c / 0x1000 < 0x10 && c == c / 0x1000 * 0x1000 + c / 0x40 % 0x40 * 0x40 + c % 0x40
    ensures c / 0x1000 == 0 ==> c / 0x40 % 0x40 >= 0x20
    ensures c / 0x1000 == 0xd ==> c / 0x40 % 0x40 < 0x20
  {
    assert c / 0x40 == c / 0x1000 * 0x40 + c / 0x40 % 0x40;
  }

  lemma FourBytes(c: scalar)
    requires 0x1_0000 <= c
    ensures c / 0x4_0000 <= 4
    ensures c == c / 0x4_0000 * 0x4_0000 + c / 0x1000 % 0x40 * 0x1000 + c / 0x40 % 0x40 * 0x40 + c % 0x40
    ensures c / 0x4_0000 == 0 ==> c / 0x1000 % 0x40 >= 0x10
    ensures c / 0x4_0000 == 4 ==> c / 0x1000 % 0x40 < 0x10
  {
    assert c / 0x40 == c / 0x1000 * 0x40 + c / 0x40 % 0x40;
    assert c / 0x1000 == c / 0x4_0000 * 0x40 + c / 0x1000 % 0x40;
  }

  /** RFC 3629: decoding undoes encoding on every string that has an encoding. */
  lemma {:induction false} DecodeInverse(s: JsString)
    requires WellFormed(s)
    ensures DecodeReplacing(Utf8(s)) == s
  {
    if s != [] {
      hide DecodeOne, Utf8Of, Utf16, PairValue;
      var c := First(s);
      var rest := s[|Utf16(c)|..];
      FirstTaken(s);
      DecodeInverse(rest);
      DecodeStep(c, Utf8(rest));
    }
  }

  /** A well-formed string is its first scalar and a well-formed rest. */
  lemma FirstTaken(s: JsString)
    requires s != [] && WellFormed(s)
    ensures
      var n := |Utf16(First(s))|;
      n <= |s| && WellFormed(s[n..]) && s == Utf16(First(s)) + s[n..]
  {
  }

  lemma DecodeStep(c: scalar, rest: bytes)
    ensures DecodeReplacing(Utf8Of(c) + rest) == Utf16(c) + DecodeReplacing(rest)
  {
    DecodeOneInverse(c, rest);
    hide DecodeOne, Utf16;
    assert (Utf8Of(c) + rest)[|Utf8Of(c)|..] == rest;
  }
}
