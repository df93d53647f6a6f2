/**
 * Percent-encoded automation paths of `protocol.ts` and their tunnelled form (RFC 3986 section 2.1,
 * RFC 3629 section 3): building a path and parsing it back.
 */
module AutomationPaths {
  import opened Bytes
  import opened Unicode
  import opened Wrappers

  const SLASH: u16 := 0x2f
  const PERCENT: u16 := 0x25

  // ------------------------------------------------- encodeURIComponent and back

  /** What `encodeURIComponent` leaves alone. */
  predicate Unreserved(u: u16) {
    IsLetter(u) || IsDigit(u) || u in {0x2d, 0x5f, 0x2e, 0x21, 0x7e, 0x2a, 0x27, 0x28, 0x29}
  }

  function HexDigit(n: nat): u16
    requires n < 16
  {
    if n < 10 then 0x30 + n else 0x41 + (n - 10)
  }

  function Percent(b: bytes): (s: JsString)
    ensures |s| == 3 * |b|
  {
    if b == [] then [] else [PERCENT, HexDigit(b[0] / 16), HexDigit(b[0] % 16)] + Percent(b[1..])
  }

  /** None is the URIError a lone surrogate throws. */
  function EncodeComponent(s: JsString): Option<JsString> {
    if s == [] then Some([])
    else if StartsPair(s) then
      var rest := EncodeComponent(s[2..]);
      if rest.None? then None else Some(Percent(Utf8Of(PairValue(s))) + rest.value)
    else if IsHigh(s[0]) || IsLow(s[0]) then None
    else
      var rest := EncodeComponent(s[1..]);
      if rest.None? then None
      else Some((if Unreserved(s[0]) then [s[0]] else Percent(Utf8Of(s[0]))) + rest.value)
  }

  function HexValue(u: u16): Option<nat> {
    if IsDigit(u) then Some(u - 0x30)
    else if 0x41 <= u <= 0x46 then Some(u - 0x41 + 10)
    else if 0x61 <= u <= 0x66 then Some(u - 0x61 + 10)
    else None
  }

  /** `count` bytes written as `%XX` at the front of `s`. */
  function Octets(s: JsString, count: nat): (r: Option<bytes>)
    ensures r.Some? ==> |r.value| == count && 3 * count <= |s|
  {
    if count == 0 then Some([])
    else if |s| < 3 || s[0] != PERCENT || HexValue(s[1]).None? || HexValue(s[2]).None? then None
    else
      var b: int := HexValue(s[1]).value * 16 + HexValue(s[2]).value;
      var rest := Octets(s[3..], count - 1);
      if b >= 0x100 || rest.None? then None else Some([b as byte] + rest.value)
  }

  /** `decodeURIComponent`; None is its URIError. */
  function DecodeComponent(s: JsString): Option<JsString> {
    if s == [] then Some([])
    else if s[0] != PERCENT then
      var rest := DecodeComponent(s[1..]);
      if rest.None? then None else Some([s[0]] + rest.value)
    else
      var lead := Octets(s, 1);
      if lead.None? || SequenceLength(lead.value[0]) == 0 then None
      else
        var n := SequenceLength(lead.value[0]);
        var octets := Octets(s, n);
        if octets.None? || DecodeOne(octets.value).0.None? then None
        else
          var rest := DecodeComponent(s[3 * n..]);
          if rest.None? then None else Some(Utf16(DecodeOne(octets.value).0.value) + rest.value)
  }

  // --------------------------------------------------------------------- paths

  const PREFIX: JsString := Js("/automation")
  const SCHEME: JsString := Js("mfarm+tunnel:")

  function IndexOf(s: JsString, u: u16): (n: nat)
    ensures n <= |s| && (n < |s| ==> s[n] == u) && forall k :: 0 <= k < n ==> s[k] != u
  {
    if s == [] || s[0] == u then 0 else 1 + IndexOf(s[1..], u)
  }

  function AutomationPath(localId: JsString): Option<JsString> {
    var id := EncodeComponent(localId);
    if id.None? then None else Some(PREFIX + [SLASH] + id.value)
  }

  datatype Parsed = Parsed(localId: JsString, rest: JsString)

  function ParseAutomationPath(pathname: JsString): Option<Parsed> {
    if !StartsWith(pathname, PREFIX + [SLASH]) then None
    else
      var tail := pathname[|PREFIX| + 1..];
      var slash := IndexOf(tail, SLASH);
      if slash == 0 then None
      else match DecodeComponent(tail[..slash])
        case None => None
        case Some(localId) => Some(Parsed(localId, tail[slash..]))
  }

  function TunnelAutomationEndpoint(localId: JsString): Option<JsString> {
    var path := AutomationPath(localId);
    if path.None? then None else Some(SCHEME + path.value)
  }

  function ParseTunnelAutomationUrl(url: JsString): Option<JsString> {
    if !StartsWith(url, SCHEME) then None
    else
      var target := url[|SCHEME|..];
      if StartsWith(target, PREFIX + [SLASH]) then Some(target) else None
  }

  // -------------------------------------------------------------------- proofs

  lemma HexInverse(n: nat)
    requires n < 16
    ensures HexValue(HexDigit(n)) == Some(n)
  {
  }

  lemma OctetStep(x: byte, s: JsString, n: nat)
    ensures
      Octets([PERCENT, HexDigit(x / 16), HexDigit(x % 16)] + s, n + 1)
      == if Octets(s, n).None? then None else Some([x] + Octets(s, n).value)
  {
    hide HexDigit, HexValue;
    HexInverse(x / 16);
    HexInverse(x % 16);
    var t := [PERCENT, HexDigit(x / 16), HexDigit(x % 16)] + s;
    assert t[3..] == s;
    assert x as int == x / 16 * 16 + x % 16;
  }

  lemma {:induction false} OctetsInverse(b: bytes, rest: JsString)
    ensures Octets(Percent(b) + rest, |b|) == Some(b)
  {
    hide HexDigit, Octets;
    if b == [] {
      NoOctets(Percent(b) + rest);
    } else {
      OctetsInverse(b[1..], rest);
      OctetStep(b[0], Percent(b[1..]) + rest, |b| - 1);
      assert Percent(b) + rest == [PERCENT, HexDigit(b[0] / 16), HexDigit(b[0] % 16)] + (Percent(b[1..]) + rest);
      assert b == [b[0]] + b[1..];
    }
  }

  lemma NoOctets(s: JsString)
    ensures Octets(s, 0) == Some([])
  {
  }

  /** Decoding undoes the escape of one scalar. */
  lemma EscapeInverse(c: scalar, rest: JsString)
    ensures
      DecodeComponent(Percent(Utf8Of(c)) + rest)
      == if DecodeComponent(rest).None? then None else Some(Utf16(c) + DecodeComponent(rest).value)
  {
    hide Utf8Of, DecodeOne, SequenceLength, Utf16;
    var b := Utf8Of(c);
    var s := Percent(b) + rest;
    LeadOf(c);
    assert b == b + [];
    DecodeOneInverse(c, []);
    OctetsInverse(b, rest);
    assert Percent(b) == Percent([b[0]]) + Percent(b[1..]);
    assert s == Percent([b[0]]) + (Percent(b[1..]) + rest);
    OctetsInverse([b[0]], Percent(b[1..]) + rest);
    assert s[3 * |b|..] == rest;
  }

  lemma LeadOf(c: scalar)
    ensures SequenceLength(Utf8Of(c)[0]) == |Utf8Of(c)|
  {
  }

  lemma PercentIsReserved()
    ensures !Unreserved(PERCENT)
  {
  }

  lemma {:induction false} ComponentInverse(s: JsString)
    ensures EncodeComponent(s).Some? <==> WellFormed(s)
    ensures EncodeComponent(s).Some? ==> DecodeComponent(EncodeComponent(s).value) == Some(s)
  {
    hide Utf8Of, Percent, Unreserved, PairValue;
    if s != [] {
      if StartsPair(s) {
        ComponentInverse(s[2..]);
        if EncodeComponent(s[2..]).Some? {
          EscapeInverse(PairValue(s), EncodeComponent(s[2..]).value);
          assert s == s[..2] + s[2..];
        }
      } else {
        ComponentInverse(s[1..]);
        if EncodeComponent(s).Some? {
          var rest := EncodeComponent(s[1..]).value;
          assert s == [s[0]] + s[1..] && Utf16(s[0]) == [s[0]];
          if Unreserved(s[0]) {
            assert ([s[0]] + rest)[1..] == rest;
            PercentIsReserved();
          } else {
            EscapeInverse(s[0], rest);
          }
        }
      }
    }
  }

  lemma {:induction false} PercentHasNoSlash(b: bytes)
    ensures SLASH !in Percent(b)
  {
    if b != [] {
      PercentHasNoSlash(b[1..]);
    }
  }

  lemma {:induction false} EncodedHasNoSlash(s: JsString)
    requires EncodeComponent(s).Some?
    ensures SLASH !in EncodeComponent(s).value
    ensures s != [] ==> EncodeComponent(s).value != []
  {
    hide Utf8Of;
    if s != [] {
      if StartsPair(s) {
        EncodedHasNoSlash(s[2..]);
        PercentHasNoSlash(Utf8Of(PairValue(s)));
      } else {
        EncodedHasNoSlash(s[1..]);
        PercentHasNoSlash(Utf8Of(s[0]));
      }
    }
  }

  lemma IndexAt(s: JsString, rest: JsString, u: u16)
    requires u !in s && (rest == [] || rest[0] == u)
    ensures IndexOf(s + rest, u) == |s|
  {
    assert rest != [] ==> (s + rest)[|s|] == u;
    assert forall k :: 0 <= k < |s| ==> (s + rest)[k] == s[k] != u;
  }

  /**
   * A path exists for exactly the well-formed ids, and parsing it followed by any remainder gives
   * the id and the remainder back; only the empty id does not come back.
   */
  lemma PathInverse(localId: JsString, rest: JsString)
    requires rest == [] || rest[0] == SLASH
    ensures AutomationPath(localId).Some? <==> WellFormed(localId)
    ensures AutomationPath(localId).Some? ==>
      ParseAutomationPath(AutomationPath(localId).value + rest)
      == if localId == [] then None else Some(Parsed(localId, rest))
  {
    hide WellFormed, EncodeComponent, DecodeComponent;
    ComponentInverse(localId);
    if AutomationPath(localId).Some? {
      var id := EncodeComponent(localId).value;
      var path := AutomationPath(localId).value + rest;
      EncodedHasNoSlash(localId);
      assert path == (PREFIX + [SLASH]) + (id + rest);
      var tail := path[|PREFIX| + 1..];
      assert tail == id + rest;
      IndexAt(id, rest, SLASH);
      assert tail[..|id|] == id && tail[|id|..] == rest;
      EmptyComponent();
    }
  }

  lemma EmptyComponent()
    ensures EncodeComponent([]) == Some([])
  {
  }

  /** The path is `/automation/`, an encoded id without a slash, and a remainder that is empty or starts with one. */
  ghost predicate IsPath(pathname: JsString, raw: JsString, p: Parsed) {
    && pathname == Js("/automation/") + (raw + p.rest) && raw != [] && 0x2f !in raw
    && (p.rest == [] || p.rest[0] == 0x2f) && DecodeComponent(raw) == Some(p.localId)
  }

  lemma PrefixIs()
    ensures PREFIX + [SLASH] == Js("/automation/") && SCHEME == Js("mfarm+tunnel:")
  {
  }

  /** A path parses exactly if it is the prefix, an encoded id and a remainder, and then to these. */
  lemma ParsedIsPath(pathname: JsString, p: Parsed)
    ensures ParseAutomationPath(pathname) == Some(p) <==> exists raw: JsString :: IsPath(pathname, raw, p)
  {
    PrefixIs();
    hide DecodeComponent, Js;
    if ParseAutomationPath(pathname) == Some(p) {
      var tail := pathname[|PREFIX| + 1..];
      var slash := IndexOf(tail, SLASH);
      assert pathname == pathname[..|PREFIX| + 1] + tail && tail == tail[..slash] + tail[slash..];
      assert IsPath(pathname, tail[..slash], p);
    }
    forall raw: JsString | IsPath(pathname, raw, p)
      ensures ParseAutomationPath(pathname) == Some(p)
    {
      var tail := pathname[|PREFIX| + 1..];
      assert pathname == (PREFIX + [SLASH]) + (raw + p.rest);
      assert tail == raw + p.rest;
      IndexAt(raw, p.rest, SLASH);
      assert tail[..|raw|] == raw && tail[|raw|..] == p.rest;
    }
  }

  /** A tunnelled address is the scheme and a path, and nothing else is one. */
  lemma TunnelledExactly(url: JsString, target: JsString)
    ensures ParseTunnelAutomationUrl(url) == Some(target)
            <==> url == Js("mfarm+tunnel:") + target && StartsWith(target, Js("/automation/"))
  {
    PrefixIs();
    hide Js;
    if StartsWith(url, SCHEME) {
      assert url == SCHEME + url[|SCHEME|..];
    }
    if url == SCHEME + target {
      assert url[|SCHEME|..] == target && url[..|SCHEME|] == SCHEME;
    }
  }

  /** Stripping the tunnel scheme gives exactly the path the direct form would have. */
  lemma TunnelInverse(localId: JsString, rest: JsString)
    requires WellFormed(localId)
    ensures TunnelAutomationEndpoint(localId).Some? && AutomationPath(localId).Some?
    ensures
      ParseTunnelAutomationUrl(TunnelAutomationEndpoint(localId).value + rest)
      == Some(AutomationPath(localId).value + rest)
  {
    hide WellFormed, EncodeComponent, DecodeComponent;
    ComponentInverse(localId);
    var path := AutomationPath(localId).value;
    var url := TunnelAutomationEndpoint(localId).value + rest;
    assert url == SCHEME + (path + rest);
    assert url[|SCHEME|..] == path + rest;
    assert path + rest == (PREFIX + [SLASH]) + (EncodeComponent(localId).value + rest);
  }

  // --------------------------------------------------------- as they are written

  /** ASCII letters, digits and nine marks stand for themselves; any other ASCII character is its two digits. */
  lemma AsciiWritten(u: u16)
    requires u < 0x80
    ensures
      var plain := 0x41 <= u <= 0x5a || 0x61 <= u <= 0x7a || 0x30 <= u <= 0x39
                   || u in {0x2d, 0x5f, 0x2e, 0x21, 0x7e, 0x2a, 0x27, 0x28, 0x29};
      EncodeComponent([u])
      == Some(if plain then [u] else [0x25, Js("0123456789ABCDEF")[u / 16], Js("0123456789ABCDEF")[u % 16]])
  {
    HexIs(u / 16);
    HexIs(u % 16);
    OneUnit(u);
    hide Js, HexDigit, EncodeComponent, Percent;
    if Unreserved(u) {
      assert [u] + [] == [u];
    } else {
      TwoDigits(u);
      assert Percent(Utf8Of(u)) + [] == Percent(Utf8Of(u));
    }
  }

  lemma OneUnit(u: u16)
    requires u < 0x80
    ensures EncodeComponent([u]) == Some((if Unreserved(u) then [u] else Percent(Utf8Of(u))) + [])
  {
    hide Percent;
    assert [u][1..] == [];
    assert EncodeComponent([]) == Some([]);
  }

  lemma TwoDigits(u: u16)
    requires u < 0x80
    ensures Percent(Utf8Of(u)) == [0x25, HexDigit(u / 16), HexDigit(u % 16)]
  {
    hide HexDigit;
    var b := Utf8Of(u);
    assert |b| == 1 && b[0] == u && b[1..] == [];
    assert Percent([]) == [];
  }

  lemma HexIs(n: nat)
    requires n < 16
    ensures HexDigit(n) == Js("0123456789ABCDEF")[n]
  {
  }

  // ------------------------------------------------------------ whatever is decoded

  /** A hexadecimal digit of this value, in either case. */
  predicate IsHexOf(u: u16, n: nat) {
    (n < 10 && u == 0x30 + n) || (10 <= n < 16 && (u == 0x37 + n || u == 0x57 + n))
  }

  /** The two digits of a byte. */
  function High(x: byte): nat { x as int / 16 }

  function Low(x: byte): nat { x as int % 16 }

  /** Each byte as a percent sign and two digits. */
  predicate IsEscape(s: JsString, b: bytes) {
    if b == [] then s == []
    else
      && |s| >= 3 && s[0] == 0x25 && IsHexOf(s[1], High(b[0])) && IsHexOf(s[2], Low(b[0]))
      && IsEscape(s[3..], b[1..])
  }

  lemma HexExactly(u: u16, n: nat)
    ensures HexValue(u) == Some(n) <==> IsHexOf(u, n)
  {
  }

  lemma {:induction false} OctetsExactly(s: JsString, b: bytes)
    ensures Octets(s, |b|) == Some(b) <==> 3 * |b| <= |s| && IsEscape(s[..3 * |b|], b)
    decreases |b|
  {
    hide HexValue, IsHexOf;
    if b == [] {
      assert IsEscape(s[..0], b);
    } else if |s| >= 3 {
      var n := |b| - 1;
      OctetsExactly(s[3..], b[1..]);
      HexExactly(s[1], High(b[0]));
      HexExactly(s[2], Low(b[0]));
      assert b == [b[0]] + b[1..];
      if 3 * |b| <= |s| {
        assert s[..3 * |b|][3..] == s[3..][..3 * n];
      }
      FirstOctet(s, b);
    }
  }

  lemma ConsIs(x: byte, rest: bytes, b: bytes)
    requires b != []
    ensures [x] + rest == b <==> x == b[0] && rest == b[1..]
  {
    assert ([x] + rest)[1..] == rest;
    assert b == [b[0]] + b[1..];
  }

  /** One turn of reading octets. */
  lemma OctetsTurn(s: JsString, n: nat)
    requires |s| >= 3 && n > 0
    ensures
      var (high, low, rest) := (HexValue(s[1]), HexValue(s[2]), Octets(s[3..], n - 1));
      if s[0] != 0x25 || high.None? || low.None? || rest.None? then Octets(s, n).None?
      else high.value < 16 && low.value < 16
           && Octets(s, n) == Some([(high.value * 16 + low.value) as byte] + rest.value)
  {
    HexIsSmall(s[1]);
    HexIsSmall(s[2]);
    hide HexValue;
  }

  lemma FirstOctet(s: JsString, b: bytes)
    requires b != [] && |s| >= 3
    ensures Octets(s, |b|) == Some(b) <==>
              && s[0] == 0x25 && HexValue(s[1]) == Some(High(b[0])) && HexValue(s[2]) == Some(Low(b[0]))
              && Octets(s[3..], |b| - 1) == Some(b[1..])
  {
    OctetsTurn(s, |b|);
    hide HexValue, Octets, High, Low;
    var high, low, rest := HexValue(s[1]), HexValue(s[2]), Octets(s[3..], |b| - 1);
    if s[0] == 0x25 && high.Some? && low.Some? && rest.Some? {
      TwoHex(high.value, low.value, b[0]);
      ConsIs((high.value * 16 + low.value) as byte, rest.value, b);
    }
  }

  lemma TwoHex(high: nat, low: nat, x: byte)
    requires high < 16 && low < 16
    ensures high * 16 + low < 0x100
    ensures high * 16 + low == x as int <==> high == High(x) && low == Low(x)
  {
  }

  lemma HexIsSmall(u: u16)
    ensures HexValue(u).Some? ==> HexValue(u).value < 16
  {
  }

  /**
   * The text reads as the value: a unit other than the percent sign is itself, and a percent sign starts the
   * escaped UTF-8 form of one scalar.
   */
  ghost predicate Reads(s: JsString, v: JsString)
    decreases |s|
  {
    if s == [] then v == []
    else if s[0] != 0x25 then v != [] && v[0] == s[0] && Reads(s[1..], v[1..])
    else
      exists c: scalar ::
        && 3 * |Utf8Of(c)| <= |s| && IsEscape(s[..3 * |Utf8Of(c)|], Utf8Of(c))
        && StartsWith(v, Utf16(c)) && Reads(s[3 * |Utf8Of(c)|..], v[|Utf16(c)|..])
  }

  /** The escape at the front of `s`, if there is one. */
  lemma EscapeAt(s: JsString, c: scalar)
    requires s != [] && 3 * |Utf8Of(c)| <= |s| && IsEscape(s[..3 * |Utf8Of(c)|], Utf8Of(c))
    ensures
      var b := Utf8Of(c);
      && Octets(s, 1) == Some([b[0]]) && SequenceLength(b[0]) == |b| && Octets(s, |b|) == Some(b)
      && DecodeOne(b) == (Some(c), |b|)
  {
    hide IsHexOf, DecodeOne, SequenceLength, Octets;
    var b := Utf8Of(c);
    hide Utf8Of;
    LeadOf(c);
    OctetsExactly(s, b);
    OneEscape(s, b);
    OctetsExactly(s, [b[0]]);
    assert b + [] == b;
    DecodeOneInverse(c, []);
  }

  lemma OneEscape(s: JsString, b: bytes)
    requires b != [] && 3 * |b| <= |s| && IsEscape(s[..3 * |b|], b)
    ensures IsEscape(s[..3], [b[0]])
  {
    hide IsHexOf;
    assert [b[0]][1..] == [] && s[..3][3..] == [];
  }

  lemma EscapeFound(s: JsString)
    requires s != [] && s[0] == 0x25
    requires Octets(s, 1).Some? && SequenceLength(Octets(s, 1).value[0]) > 0
    requires Octets(s, SequenceLength(Octets(s, 1).value[0])).Some?
    requires DecodeOne(Octets(s, SequenceLength(Octets(s, 1).value[0])).value).0.Some?
    ensures
      var n := SequenceLength(Octets(s, 1).value[0]);
      var c := DecodeOne(Octets(s, n).value).0.value;
      Utf8Of(c) == Octets(s, n).value && 3 * n <= |s| && IsEscape(s[..3 * n], Utf8Of(c))
  {
    hide IsHexOf;
    var n := SequenceLength(Octets(s, 1).value[0]);
    var b := Octets(s, n).value;
    SameLead(s, n);
    DecodeOneIsStrict(b);
    WholeSequence(b);
    OctetsExactly(s, b);
  }

  lemma SameLead(s: JsString, n: nat)
    requires n > 0 && Octets(s, n).Some?
    ensures Octets(s, 1).Some? && Octets(s, 1).value[0] == Octets(s, n).value[0]
  {
    hide HexValue;
    assert Octets(s[3..], 0) == Some([]);
  }

  lemma WholeSequence(b: bytes)
    requires b != [] && DecodeOne(b).0.Some? && |b| == SequenceLength(b[0])
    ensures DecodeOne(b).1 == |b| && b[..|b|] == b
  {
  }

  /** A component decodes exactly if it is written so, whatever it is, and the hexadecimal digits in either case. */
  lemma {:induction false} DecodesExactly(s: JsString, v: JsString)
    ensures DecodeComponent(s) == Some(v) <==> Reads(s, v)
    decreases |s|
  {
    hide Octets, DecodeOne, SequenceLength, Utf8Of, Utf16, IsEscape;
    if s == [] {
    } else if s[0] != 0x25 {
      if v != [] {
        DecodesExactly(s[1..], v[1..]);
        assert v == [v[0]] + v[1..];
      }
    } else {
      forall c: scalar |
        && 3 * |Utf8Of(c)| <= |s| && IsEscape(s[..3 * |Utf8Of(c)|], Utf8Of(c))
        && StartsWith(v, Utf16(c)) && Reads(s[3 * |Utf8Of(c)|..], v[|Utf16(c)|..])
        ensures DecodeComponent(s) == Some(v)
      {
        EscapeAt(s, c);
        DecodesExactly(s[3 * |Utf8Of(c)|..], v[|Utf16(c)|..]);
        assert v == Utf16(c) + v[|Utf16(c)|..];
      }
      if DecodeComponent(s) == Some(v) {
        EscapeFound(s);
        var n := SequenceLength(Octets(s, 1).value[0]);
        var c := DecodeOne(Octets(s, n).value).0.value;
        var rest := DecodeComponent(s[3 * n..]).value;
        assert v == Utf16(c) + rest && v[|Utf16(c)|..] == rest;
        DecodesExactly(s[3 * n..], rest);
        assert 3 * |Utf8Of(c)| <= |s| && IsEscape(s[..3 * |Utf8Of(c)|], Utf8Of(c));
      }
    }
  }
}
