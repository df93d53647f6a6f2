/**
 * The short code of a pairing (`pairing.ts`): how it is shown, and what is taken for it when typed.
 * `upper` is `toUpperCase` of one UTF-16 unit, fixed here for ASCII only.
 */
module UserCodes {
  import opened Unicode

  const CODE_LEN: nat := 8
  const DASH: u16 := 0x2d

  /** The thirty symbols: no 0 or 1, and of the capitals neither I nor L, O or U. */
  predicate InAlphabet(u: u16) {
    0x32 <= u <= 0x39 || (0x41 <= u <= 0x5a && u !in {0x49, 0x4c, 0x4f, 0x55})
  }

  predicate IsLower(u: u16) { 0x61 <= u <= 0x7a }

  ghost predicate UppersAscii(upper: u16 -> JsString) {
    forall u: u16 :: u < 0x80 ==> upper(u) == [if IsLower(u) then u - 0x20 else u]
  }

  predicate IsSeparator(u: u16) { IsSpace(u) || u == DASH }

  /** Every run of separators removed. */
  function Strip(raw: JsString): (r: JsString)
    ensures forall u: u16 :: u in r <==> u in raw && !IsSeparator(u)
  {
    if raw == [] then []
    else
      assert raw == [raw[0]] + raw[1..];
      (if IsSeparator(raw[0]) then [] else [raw[0]]) + Strip(raw[1..])
  }

  function Upper(s: JsString, upper: u16 -> JsString): JsString {
    if s == [] then [] else upper(s[0]) + Upper(s[1..], upper)
  }

  function Normalize(raw: JsString, upper: u16 -> JsString): JsString {
    Upper(Strip(raw), upper)
  }

  predicate IsCodeShaped(code: JsString) {
    |code| == CODE_LEN && forall i :: 0 <= i < |code| ==> InAlphabet(code[i])
  }

  /** `slice(0, 4)`, a dash, and the rest. */
  function Format(code: JsString): JsString {
    var cut := if |code| < 4 then |code| else 4;
    code[..cut] + [DASH] + code[cut..]
  }

  lemma {:induction false} StripAppend(a: JsString, b: JsString)
    ensures Strip(a + b) == Strip(a) + Strip(b)
    decreases |a|
  {
    if a == [] {
      assert a + b == b;
    } else {
      assert (a + b)[1..] == a[1..] + b;
      StripAppend(a[1..], b);
      var first := if IsSeparator(a[0]) then [] else [a[0]];
      assert first + (Strip(a[1..]) + Strip(b)) == (first + Strip(a[1..])) + Strip(b);
    }
  }

  lemma {:induction false} PlainIsKept(s: JsString)
    requires forall i :: 0 <= i < |s| ==> !IsSeparator(s[i])
    ensures Strip(s) == s
    decreases |s|
  {
    if s != [] {
      PlainIsKept(s[1..]);
    }
  }

  lemma {:induction false} UpperIsItself(s: JsString, upper: u16 -> JsString)
    requires UppersAscii(upper) && forall i :: 0 <= i < |s| ==> s[i] < 0x80 && !IsLower(s[i])
    ensures Upper(s, upper) == s
    decreases |s|
  {
    if s != [] {
      UpperIsItself(s[1..], upper);
    }
  }

  /** Separators may stand anywhere: only what is left after removing them matters. */
  lemma SeparatorsAreIgnored(a: JsString, separators: JsString, b: JsString, upper: u16 -> JsString)
    requires forall u <- separators :: IsSeparator(u)
    ensures Normalize(a + separators + b, upper) == Normalize(a + b, upper)
  {
    hide Strip, Upper, IsSeparator;
    AllStripped(separators);
    StripAppend(a + separators, b);
    StripAppend(a, separators);
    StripAppend(a, b);
    AddNothing(Strip(a));
  }

  lemma AddNothing(s: JsString)
    ensures s + [] == s
  {
  }

  lemma {:induction false} AllStripped(s: JsString)
    requires forall u <- s :: IsSeparator(u)
    ensures Strip(s) == []
    decreases |s|
  {
    if s != [] {
      AllStripped(s[1..]);
    }
  }

  /** What is displayed is accepted, and is the code that was generated. */
  lemma DisplayedIsAccepted(code: JsString, upper: u16 -> JsString)
    requires UppersAscii(upper) && IsCodeShaped(code)
    ensures Normalize(Format(code), upper) == code
  {
    SeparatorsAreIgnored(code[..4], [DASH], code[4..], upper);
    assert code[..4] + code[4..] == code;
    PlainIsKept(code);
    UpperIsItself(code, upper);
  }

  /** Unit by unit, case aside. */
  predicate SameLetters(s: JsString, code: JsString) {
    |s| == |code| && forall i :: 0 <= i < |s| ==> code[i] == if IsLower(s[i]) then s[i] - 0x20 else s[i]
  }

  lemma {:induction false} UpperIsUnitwise(s: JsString, upper: u16 -> JsString)
    requires UppersAscii(upper) && forall i :: 0 <= i < |s| ==> s[i] < 0x80
    ensures SameLetters(s, Upper(s, upper))
    decreases |s|
  {
    if s != [] {
      UpperIsUnitwise(s[1..], upper);
    }
  }

  /** A typed character that is no separator and not ASCII either. */
  predicate Foreign(raw: JsString) {
    exists u <- raw :: u >= 0x80 && !IsSeparator(u)
  }

  /** Nothing typed in ASCII is dropped: separators aside, the normal form is what was typed, case aside. */
  lemma NothingIsDropped(raw: JsString, upper: u16 -> JsString)
    requires UppersAscii(upper) && !Foreign(raw)
    ensures SameLetters(Strip(raw), Normalize(raw, upper))
    ensures IsCodeShaped(Normalize(raw, upper)) ==> |Strip(raw)| == CODE_LEN
  {
    var kept := Strip(raw);
    assert forall i :: 0 <= i < |kept| ==> kept[i] in kept;
    UpperIsUnitwise(kept, upper);
  }

  /**
   * Exactly when nothing is lost on the way to a code: of the inputs taken for a code, those whose
   * characters, separators aside, are the code's eight in order are the ones typed in ASCII. There a
   * misread letter fails instead of naming another code.
   */
  lemma NothingIsDroppedExactly(raw: JsString, upper: u16 -> JsString)
    requires UppersAscii(upper) && IsCodeShaped(Normalize(raw, upper))
    ensures SameLetters(Strip(raw), Normalize(raw, upper)) <==> !Foreign(raw)
  {
    var kept, code := Strip(raw), Normalize(raw, upper);
    if !Foreign(raw) {
      NothingIsDropped(raw, upper);
    } else {
      var u :| u in raw && u >= 0x80 && !IsSeparator(u);
      assert u in kept;
      var i :| 0 <= i < |kept| && kept[i] == u;
      assert |kept| == |code| ==> InAlphabet(code[i]);
    }
  }

  /** A sharp s and six digits, seven characters, are taken for a code of eight. */
  lemma SharpSBecomesTwo(digits: JsString, upper: u16 -> JsString)
    requires UppersAscii(upper) && upper(0xdf) == [0x53, 0x53]
    requires |digits| == 6 && forall i :: 0 <= i < 6 ==> 0x32 <= digits[i] <= 0x39
    ensures |[0xdf] + digits| == CODE_LEN - 1 && IsCodeShaped(Normalize([0xdf] + digits, upper))
  {
    ForeignStart(0xdf, digits, upper);
  }

  /** A long s and seven digits name the code that has an S there, with no change of length. */
  lemma LongSNamesAnother(digits: JsString, upper: u16 -> JsString)
    requires UppersAscii(upper) && upper(0x17f) == [0x53]
    requires |digits| == 7 && forall i :: 0 <= i < 7 ==> 0x32 <= digits[i] <= 0x39
    ensures IsCodeShaped([0x53] + digits)
    ensures Normalize([0x17f] + digits, upper) == [0x53] + digits == Normalize([0x53] + digits, upper)
  {
    ForeignStart(0x17f, digits, upper);
    ForeignStart(0x53, digits, upper);
  }

  lemma ForeignStart(u: u16, digits: JsString, upper: u16 -> JsString)
    requires UppersAscii(upper) && !IsSeparator(u)
    requires forall i :: 0 <= i < |digits| ==> 0x32 <= digits[i] <= 0x39
    ensures Normalize([u] + digits, upper) == upper(u) + digits
  {
    var raw := [u] + digits;
    PlainIsKept(raw);
    UpperIsItself(digits, upper);
    assert raw[1..] == digits;
  }

  /** A code is eight of these thirty symbols: 2 to 9, and A to Z without I, L, O and U. */
  lemma CodeShapedExactly(code: JsString)
    ensures
      IsCodeShaped(code)
      <==> |code| == 8 && forall u <- code ::
             u in {0x32, 0x33, 0x34, 0x35, 0x36, 0x37, 0x38, 0x39, 0x41, 0x42, 0x43, 0x44, 0x45, 0x46, 0x47, 0x48,
                   0x4a, 0x4b, 0x4d, 0x4e, 0x50, 0x51, 0x52, 0x53, 0x54, 0x56, 0x57, 0x58, 0x59, 0x5a}
  {
    assert forall i :: 0 <= i < |code| ==> code[i] in code;
  }

  /** A code is shown in two halves with a dash between them. */
  lemma ShownInHalves(code: JsString)
    requires IsCodeShaped(code)
    ensures Format(code) == code[..4] + [0x2d] + code[4..] && |Format(code)| == 9
  {
  }
}
