/**
 * `attachInput` of `live.js`: which modifiers and touches the device believes are down, against the
 * sets the page keeps.
 */
module LiveInput {
  import opened Wrappers

  datatype Family = Shift | Control | Alt | Meta

  /** `event.code`, told apart by the modifier test. */
  datatype Code = Mod(family: Family, right: bool) | Plain(name: nat)

  datatype Sent = Sent(code: Code, down: bool)

  /** A JavaScript Set: no repetition, insertion order. */
  function Add(s: seq<Code>, x: Code): seq<Code> {
    if x in s then s else s + [x]
  }

  function Delete(s: seq<Code>, x: Code): (r: seq<Code>)
    ensures forall y :: y in r <==> y in s && y != x
  {
    if s == [] then [] else (if s[0] == x then [] else [s[0]]) + Delete(s[1..], x)
  }

  function DeleteAll(s: seq<Code>, xs: seq<Code>): (r: seq<Code>)
    ensures forall y :: y in r <==> y in s && y !in xs
    decreases |xs|
  {
    if xs == [] then s else DeleteAll(Delete(s, xs[0]), xs[1..])
  }

  /** The page's side: the two sets and every key message sent so far. */
  datatype Keys = Keys(held: seq<Code>, synth: seq<Code>, sent: seq<Sent>)

  datatype KeyEvent = KeyEvent(code: Code, down: bool, flags: set<Family>)

  datatype Event = Key(e: KeyEvent) | Blur | Channel(open: bool)

  const FAMILIES := [Shift, Control, Alt, Meta]

  predicate FamilyHeld(held: seq<Code>, f: Family) {
    exists c <- held :: c.Mod? && c.family == f
  }

  /** Press what the flags say is held and the device has not been told. */
  function PressMissing(k: Keys, fs: seq<Family>, flags: set<Family>): Keys
    decreases |fs|
  {
    if fs == [] then k
    else if fs[0] !in flags || FamilyHeld(k.held, fs[0]) then PressMissing(k, fs[1..], flags)
    else
      var c := Mod(fs[0], false);
      PressMissing(Keys(Add(k.held, c), Add(k.synth, c), k.sent + [Sent(c, true)]), fs[1..], flags)
  }

  function Releases(cs: seq<Code>): (r: seq<Sent>)
    ensures |r| == |cs| && forall i :: 0 <= i < |cs| ==> r[i] == Sent(cs[i], false)
  {
    seq(|cs|, i requires 0 <= i < |cs| => Sent(cs[i], false))
  }

  function OnKey(k: Keys, e: KeyEvent): Keys {
    if e.code.Mod? then
      Keys(if e.down then Add(k.held, e.code) else Delete(k.held, e.code),
           if e.down then k.synth else Delete(k.synth, e.code),
           k.sent + [Sent(e.code, e.down)])
    else if e.down then
      var k' := PressMissing(k, FAMILIES, e.flags);
      k'.(sent := k'.sent + [Sent(e.code, true)])
    else
      Keys(DeleteAll(k.held, k.synth), [], k.sent + [Sent(e.code, false)] + Releases(k.synth))
  }

  function OnBlur(k: Keys, open: bool): Keys {
    Keys([], [], if open then k.sent + Releases(k.held) else k.sent)
  }

  /** The handlers as the page runs them. */
  class Keyboard {
    var open: bool
    var heldMods: seq<Code>
    var synthMods: seq<Code>
    var sent: seq<Sent>

    function State(): Keys
      reads this
    {
      Keys(heldMods, synthMods, sent)
    }

    function AsSession(): Session
      reads this
    {
      Session(State(), open)
    }

    constructor ()
      ensures !open && State() == Keys([], [], [])
    {
      open := false;
      heldMods, synthMods, sent := [], [], [];
    }

    method SendKey(code: Code, down: bool)
      modifies this`sent
      ensures sent == old(sent) + [Sent(code, down)]
      ensures forall c: Code :: c in Device(sent) <==>
                if code.Mod? && c == code then down else c in Device(old(sent))
    {
      DeviceAdd(sent, Sent(code, down));
      sent := sent + [Sent(code, down)];
    }

    method ReleaseMods()
      modifies this
      ensures State() == OnBlur(old(State()), open) && open == old(open)
      ensures AsSession() == Handle(old(AsSession()), Blur)
    {
      if !open {
        heldMods, synthMods := [], [];
        return;
      }
      for i := 0 to |heldMods|
        invariant open && heldMods == old(heldMods)
        invariant sent == old(sent) + Releases(heldMods[..i])
      {
        SendKey(heldMods[i], false);
        assert Releases(heldMods[..i + 1]) == Releases(heldMods[..i]) + [Sent(heldMods[i], false)];
      }
      assert heldMods[..|heldMods|] == heldMods;
      heldMods, synthMods := [], [];
    }

    method HandleKey(e: KeyEvent)
      modifies this
      ensures State() == (if open then OnKey(old(State()), e) else old(State())) && open == old(open)
      ensures AsSession() == Handle(old(AsSession()), Key(e))
    {
      if !open {
        return;
      }
      if e.code.Mod? {
        if e.down {
          heldMods := Add(heldMods, e.code);
        } else {
          heldMods, synthMods := Delete(heldMods, e.code), Delete(synthMods, e.code);
        }
        SendKey(e.code, e.down);
        return;
      }
      if e.down {
        for i := 0 to |FAMILIES|
          invariant open
          invariant PressMissing(old(State()), FAMILIES, e.flags) == PressMissing(State(), FAMILIES[i..], e.flags)
        {
          assert FAMILIES[i..][1..] == FAMILIES[i + 1..];
          var f := FAMILIES[i];
          if f in e.flags && !FamilyHeld(heldMods, f) {
            var code := Mod(f, false);
            SendKey(code, true);
            heldMods, synthMods := Add(heldMods, code), Add(synthMods, code);
          }
        }
      }
      SendKey(e.code, e.down);
      if !e.down {
        ghost var before := sent;
        var held := heldMods;
        for i := 0 to |synthMods|
          invariant open && synthMods == old(synthMods)
          invariant DeleteAll(heldMods, synthMods[i..]) == DeleteAll(held, synthMods)
          invariant sent == before + Releases(synthMods[..i])
        {
          assert synthMods[i..][1..] == synthMods[i + 1..];
          SendKey(synthMods[i], false);
          heldMods := Delete(heldMods, synthMods[i]);
          assert Releases(synthMods[..i + 1]) == Releases(synthMods[..i]) + [Sent(synthMods[i], false)];
        }
        assert synthMods[..|synthMods|] == synthMods;
        synthMods := [];
      }
    }
  }

  // --------------------------------------------------------- what the device holds

  /** The modifiers a keyboard holds after these messages. */
  function Device(sent: seq<Sent>): set<Code> {
    if sent == [] then {}
    else
      var last, before := sent[|sent| - 1], Device(sent[..|sent| - 1]);
      if !last.code.Mod? then before
      else if last.down then before + {last.code}
      else before - {last.code}
  }

  function Elements(s: seq<Code>): set<Code> {
    set c <- s
  }

  predicate OnlyMods(s: seq<Code>) {
    forall c <- s :: c.Mod?
  }

  /** The sets are about modifiers, and what we pressed is among what is held. */
  predicate Tidy(k: Keys) {
    OnlyMods(k.held) && Elements(k.synth) <= Elements(k.held)
  }

  /** The device holds exactly what the page thinks it holds. */
  predicate Agrees(k: Keys) {
    Device(k.sent) == Elements(k.held)
  }

  lemma DeviceAdd(sent: seq<Sent>, m: Sent)
    ensures
      Device(sent + [m])
      == if !m.code.Mod? then Device(sent) else if m.down then Device(sent) + {m.code} else Device(sent) - {m.code}
  {
    assert (sent + [m])[..|sent|] == sent;
  }

  lemma {:induction false} DeviceReleases(sent: seq<Sent>, cs: seq<Code>)
    requires OnlyMods(cs)
    ensures Device(sent + Releases(cs)) == Device(sent) - Elements(cs)
  {
    if cs == [] {
      assert sent + Releases(cs) == sent;
    } else {
      var rest, last := cs[..|cs| - 1], cs[|cs| - 1];
      assert cs == rest + [last];
      assert forall c :: c in rest ==> c in cs;
      DeviceReleases(sent, rest);
      assert sent + Releases(cs) == (sent + Releases(rest)) + [Sent(last, false)];
      DeviceAdd(sent + Releases(rest), Sent(last, false));
      assert last in cs;
    }
  }

  /** After the missing modifiers are pressed, every flagged family is down and nothing was let go. */
  lemma {:induction false} PressKeeps(k: Keys, fs: seq<Family>, flags: set<Family>)
    requires Tidy(k)
    ensures
      var k' := PressMissing(k, fs, flags);
      && Tidy(k') && Elements(k.held) <= Elements(k'.held)
      && (forall f <- fs :: f in flags ==> FamilyHeld(k'.held, f))
      && (Agrees(k) ==> Agrees(k'))
      && (Elements(k.held) <= Device(k.sent) ==> Elements(k'.held) <= Device(k'.sent))
    decreases |fs|
  {
    if fs != [] {
      if fs[0] !in flags || FamilyHeld(k.held, fs[0]) {
        PressKeeps(k, fs[1..], flags);
        HeldStays(k.held, PressMissing(k, fs, flags).held, fs[0]);
      } else {
        var c := Mod(fs[0], false);
        var k1 := Keys(Add(k.held, c), Add(k.synth, c), k.sent + [Sent(c, true)]);
        DeviceAdd(k.sent, Sent(c, true));
        assert c !in k.held;
        assert Elements(k1.held) == Elements(k.held) + {c} && Elements(k1.synth) == Elements(k.synth) + {c};
        assert c in k1.held;
        PressKeeps(k1, fs[1..], flags);
        HeldStays(k1.held, PressMissing(k, fs, flags).held, fs[0]);
      }
    }
  }

  lemma HeldStays(held: seq<Code>, held': seq<Code>, f: Family)
    requires Elements(held) <= Elements(held')
    ensures FamilyHeld(held, f) ==> FamilyHeld(held', f)
  {
    if FamilyHeld(held, f) {
      var c :| c in held && c.Mod? && c.family == f;
      assert c in Elements(held);
      assert c in held';
    }
  }

  /** What the page believes held, the device holds; the two agree if they did before. */
  lemma KeyKeeps(k: Keys, e: KeyEvent)
    requires Tidy(k) && Elements(k.held) <= Device(k.sent)
    ensures Tidy(OnKey(k, e)) && Elements(OnKey(k, e).held) <= Device(OnKey(k, e).sent)
    ensures Agrees(k) ==> Agrees(OnKey(k, e))
  {
    var k' := OnKey(k, e);
    DeviceAdd(k.sent, Sent(e.code, e.down));
    if e.code.Mod? {
      assert Elements(k'.held) == if e.down then Elements(k.held) + {e.code} else Elements(k.held) - {e.code};
    } else if e.down {
      PressKeeps(k, FAMILIES, e.flags);
      DeviceAdd(PressMissing(k, FAMILIES, e.flags).sent, Sent(e.code, true));
    } else {
      assert OnlyMods(k.synth) by {
        assert forall c <- k.synth :: c in Elements(k.synth) && c in Elements(k.held);
      }
      DeviceReleases(k.sent + [Sent(e.code, false)], k.synth);
      assert Elements(k'.held) == Elements(k.held) - Elements(k.synth);
    }
  }

  /** When an ordinary keydown goes out, every family its flags name is already down on the device. */
  lemma FlagsAreDown(k: Keys, e: KeyEvent, f: Family)
    requires Tidy(k) && Elements(k.held) <= Device(k.sent)
    requires e.code.Plain? && e.down && f in e.flags
    ensures
      var sent := OnKey(k, e).sent;
      && sent != [] && sent[|sent| - 1] == Sent(e.code, true)
      && exists c :: c in Device(sent[..|sent| - 1]) && c.Mod? && c.family == f
  {
    PressKeeps(k, FAMILIES, e.flags);
    var k' := PressMissing(k, FAMILIES, e.flags);
    var sent := OnKey(k, e).sent;
    assert sent[..|sent| - 1] == k'.sent;
    assert f in FAMILIES;
    var c :| c in k'.held && c.Mod? && c.family == f;
    assert c in Elements(k'.held);
  }

  /**
   * After a blur nothing is held by the page; the device agrees exactly when the channel was open or
   * nothing was held.
   */
  lemma BlurKeeps(k: Keys, open: bool)
    requires Tidy(k) && Agrees(k)
    ensures Tidy(OnBlur(k, open)) && OnBlur(k, open).held == []
    ensures Agrees(OnBlur(k, open)) <==> open || k.held == []
    ensures open ==> Device(OnBlur(k, open).sent) == {}
  {
    DeviceReleases(k.sent, k.held);
    assert k.held != [] ==> k.held[0] in Elements(k.held);
  }

  // ----------------------------------------------------------- what one event sends

  /** The left key of each of these families that the flags name and of which no key is held. */
  function Unheld(held: seq<Code>, fs: seq<Family>, flags: set<Family>): seq<Code> {
    if fs == [] then []
    else
      (if fs[0] in flags && forall c <- held :: !(c.Mod? && c.family == fs[0]) then [Mod(fs[0], false)] else [])
      + Unheld(held, fs[1..], flags)
  }

  function Presses(cs: seq<Code>): seq<Sent> {
    seq(|cs|, i requires 0 <= i < |cs| => Sent(cs[i], true))
  }

  lemma {:induction false} UnheldStays(held: seq<Code>, c: Code, fs: seq<Family>, flags: set<Family>)
    requires c.Mod? && c.family !in fs
    ensures Unheld(Add(held, c), fs, flags) == Unheld(held, fs, flags)
    decreases |fs|
  {
    if fs != [] {
      assert forall x :: x in Add(held, c) <==> x in held || x == c;
      UnheldStays(held, c, fs[1..], flags);
    }
  }

  lemma {:induction false} PressSends(k: Keys, fs: seq<Family>, flags: set<Family>)
    requires Distinct(fs)
    ensures
      var (k', cs) := (PressMissing(k, fs, flags), Unheld(k.held, fs, flags));
      && k'.sent == k.sent + Presses(cs)
      && (forall c :: c in k'.held <==> c in k.held || c in cs)
      && (forall c :: c in k'.synth <==> c in k.synth || c in cs)
    decreases |fs|
  {
    if fs == [] {
      assert Presses([]) == [];
    } else if fs[0] !in flags || FamilyHeld(k.held, fs[0]) {
      assert Unheld(k.held, fs, flags) == [] + Unheld(k.held, fs[1..], flags);
      PressSends(k, fs[1..], flags);
    } else {
      var c := Mod(fs[0], false);
      var k1 := Keys(Add(k.held, c), Add(k.synth, c), k.sent + [Sent(c, true)]);
      assert c.family !in fs[1..];
      UnheldStays(k.held, c, fs[1..], flags);
      PressSends(k1, fs[1..], flags);
      var cs := Unheld(k.held, fs[1..], flags);
      PressFirst(k.sent, c, cs);
      OneAdded(k.held, c);
      OneAdded(k.synth, c);
      hide Add, Presses;
      assert Unheld(k.held, fs, flags) == [c] + cs;
    }
  }

  lemma PressFirst(sent: seq<Sent>, c: Code, cs: seq<Code>)
    ensures (sent + [Sent(c, true)]) + Presses(cs) == sent + Presses([c] + cs)
  {
    assert Presses([c] + cs) == [Sent(c, true)] + Presses(cs);
  }

  lemma OneAdded(s: seq<Code>, c: Code)
    ensures forall x :: x in Add(s, c) <==> x in s || x == c
  {
  }

  /**
   * What one key event sends, and what the page holds after it. A modifier sends itself. An ordinary keydown
   * first presses the flagged families that nobody holds, Shift, Control, Alt and Meta in this order, and then
   * itself; an ordinary keyup sends itself and then lets go of what was pressed for it.
   */
  lemma KeySendsExactly(k: Keys, e: KeyEvent)
    ensures
      var (k', missing) := (OnKey(k, e), Unheld(k.held, [Shift, Control, Alt, Meta], e.flags));
      match e.code
      case Mod(_, _) =>
        && k'.sent == k.sent + [Sent(e.code, e.down)]
        && (forall c :: c in k'.held <==> if c == e.code then e.down else c in k.held)
        && (forall c :: c in k'.synth <==> c in k.synth && (e.down || c != e.code))
      case Plain(_) =>
        if e.down then
          && k'.sent == k.sent + Presses(missing) + [Sent(e.code, true)]
          && (forall c :: c in k'.held <==> c in k.held || c in missing)
          && (forall c :: c in k'.synth <==> c in k.synth || c in missing)
        else
          && k'.sent == k.sent + [Sent(e.code, false)] + Releases(k.synth)
          && (forall c :: c in k'.held <==> c in k.held && c !in k.synth) && k'.synth == []
  {
    PressSends(k, FAMILIES, e.flags);
  }

  // ---------------------------------------------------------------------- runs

  datatype Session = Session(keys: Keys, open: bool)

  function Handle(s: Session, e: Event): Session {
    match e
    case Key(k) => if s.open then s.(keys := OnKey(s.keys, k)) else s
    case Blur => s.(keys := OnBlur(s.keys, s.open))
    case Channel(open) => s.(open := open)
  }

  function Run(s: Session, events: seq<Event>): Session
    decreases |events|
  {
    if events == [] then s else Run(Handle(s, events[0]), events[1..])
  }

  /** No blur happens on a closed channel while the page believes a modifier held. */
  predicate NoBlindBlur(s: Session, events: seq<Event>)
    decreases |events|
  {
    if events == [] then true
    else (events[0].Blur? ==> s.open || s.keys.held == []) && NoBlindBlur(Handle(s, events[0]), events[1..])
  }

  /**
   * For every sequence of key, blur and channel events: what was pressed by us is among what is
   * held, and the device holds exactly that, so long as no blur is lost to a closed channel.
   */
  lemma {:induction false} DeviceAgrees(s: Session, events: seq<Event>)
    requires Tidy(s.keys) && Agrees(s.keys) && NoBlindBlur(s, events)
    ensures Tidy(Run(s, events).keys) && Agrees(Run(s, events).keys)
    decreases |events|
  {
    if events != [] {
      if events[0].Key? {
        KeyKeeps(s.keys, events[0].e);
      } else if events[0].Blur? {
        BlurKeeps(s.keys, s.open);
      }
      DeviceAgrees(Handle(s, events[0]), events[1..]);
    }
  }

  lemma AddDistinct(s: seq<Code>, x: Code)
    requires Distinct(s)
    ensures Distinct(Add(s, x))
  {
  }

  lemma ConsDistinct(x: Code, rest: seq<Code>)
    requires Distinct(rest) && x !in rest
    ensures Distinct([x] + rest)
  {
    assert forall i :: 1 <= i < |rest| + 1 ==> ([x] + rest)[i] == rest[i - 1] && rest[i - 1] in rest;
  }

  lemma TailDistinct(s: seq<Code>)
    requires s != [] && Distinct(s)
    ensures Distinct(s[1..]) && s[0] !in s[1..]
  {
    assert forall i :: 0 <= i < |s| - 1 ==> s[1..][i] == s[i + 1];
  }

  lemma {:induction false} DeleteDistinct(s: seq<Code>, x: Code)
    requires Distinct(s)
    ensures Distinct(Delete(s, x))
    decreases |s|
  {
    hide Distinct;
    if s != [] {
      TailDistinct(s);
      DeleteDistinct(s[1..], x);
      if s[0] == x {
        assert [] + Delete(s[1..], x) == Delete(s[1..], x);
      } else {
        ConsDistinct(s[0], Delete(s[1..], x));
      }
    } else {
      assert Delete(s, x) == s;
    }
  }

  lemma {:induction false} DeleteAllDistinct(s: seq<Code>, xs: seq<Code>)
    requires Distinct(s)
    ensures Distinct(DeleteAll(s, xs))
    decreases |xs|
  {
    if xs != [] {
      DeleteDistinct(s, xs[0]);
      DeleteAllDistinct(Delete(s, xs[0]), xs[1..]);
    }
  }

  lemma {:induction false} PressDistinct(k: Keys, fs: seq<Family>, flags: set<Family>)
    requires Distinct(k.held) && Distinct(k.synth)
    ensures Distinct(PressMissing(k, fs, flags).held) && Distinct(PressMissing(k, fs, flags).synth)
    decreases |fs|
  {
    if fs != [] {
      if fs[0] !in flags || FamilyHeld(k.held, fs[0]) {
        PressDistinct(k, fs[1..], flags);
      } else {
        var c := Mod(fs[0], false);
        AddDistinct(k.held, c);
        AddDistinct(k.synth, c);
        PressDistinct(Keys(Add(k.held, c), Add(k.synth, c), k.sent + [Sent(c, true)]), fs[1..], flags);
      }
    }
  }

  lemma HandleDistinct(s: Session, e: Event)
    requires Distinct(s.keys.held) && Distinct(s.keys.synth)
    ensures Distinct(Handle(s, e).keys.held) && Distinct(Handle(s, e).keys.synth)
  {
    var k := s.keys;
    if e.Key? {
      AddDistinct(k.held, e.e.code);
      DeleteDistinct(k.held, e.e.code);
      DeleteDistinct(k.synth, e.e.code);
      PressDistinct(k, FAMILIES, e.e.flags);
      DeleteAllDistinct(k.held, k.synth);
    }
    hide Add, Delete, DeleteAll, PressMissing;
  }

  /** Over every run no modifier is held twice, so that a blur lets go of each once. */
  lemma {:induction false} HeldAreDistinct(s: Session, events: seq<Event>)
    requires Distinct(s.keys.held) && Distinct(s.keys.synth)
    ensures Distinct(Run(s, events).keys.held) && Distinct(Run(s, events).keys.synth)
    decreases |events|
  {
    if events != [] {
      HandleDistinct(s, events[0]);
      hide Handle;
      HeldAreDistinct(Handle(s, events[0]), events[1..]);
    }
  }

  /** Whatever the channel does, the device holds everything the page believes held. */
  lemma {:induction false} PageNeverOverclaims(s: Session, events: seq<Event>)
    requires Tidy(s.keys) && Elements(s.keys.held) <= Device(s.keys.sent)
    ensures Tidy(Run(s, events).keys) && Elements(Run(s, events).keys.held) <= Device(Run(s, events).keys.sent)
    decreases |events|
  {
    if events != [] {
      if events[0].Key? {
        KeyKeeps(s.keys, events[0].e);
      }
      PageNeverOverclaims(Handle(s, events[0]), events[1..]);
    }
  }

  /** On a channel that stays open, from the first event. */
  lemma {:induction false} OpenIsNeverBlind(s: Session, events: seq<Event>)
    requires s.open && forall i :: 0 <= i < |events| ==> !events[i].Channel?
    ensures NoBlindBlur(s, events)
    decreases |events|
  {
    if events != [] {
      OpenIsNeverBlind(Handle(s, events[0]), events[1..]);
    }
  }

  // -------------------------------------------------- what the device was last told

  /** Between the two states a message about this code went out. */
  predicate Tells(k: Keys, k': Keys, c: Code) {
    |k.sent| <= |k'.sent| && exists m <- k'.sent[|k.sent|..] :: m.code == c
  }

  /** A modifier told about is on the device as the page has it now; about another one nothing is learnt. */
  predicate Learns(k: Keys, k': Keys, c: Code) {
    && k.sent <= k'.sent
    && (c in Device(k'.sent) <==> if Tells(k, k', c) then c in k'.held else c in Device(k.sent))
  }

  lemma TellsOne(k: Keys, k': Keys, m: Sent, c: Code)
    requires k'.sent == k.sent + [m]
    ensures Tells(k, k', c) <==> m.code == c
  {
    assert k'.sent[|k.sent|..] == [m];
    assert m in k'.sent[|k.sent|..];
  }

  lemma TellsBoth(k: Keys, k1: Keys, k': Keys, c: Code)
    requires k.sent <= k1.sent <= k'.sent
    ensures Tells(k, k', c) <==> Tells(k, k1, c) || Tells(k1, k', c)
  {
    assert k'.sent[|k.sent|..] == k1.sent[|k.sent|..] + k'.sent[|k1.sent|..];
  }

  lemma TellsReleases(k: Keys, k': Keys, cs: seq<Code>, c: Code)
    requires k'.sent == k.sent + Releases(cs)
    ensures Tells(k, k', c) <==> c in cs
  {
    assert k'.sent[|k.sent|..] == Releases(cs);
    if c in cs {
      var i :| 0 <= i < |cs| && cs[i] == c;
      assert Releases(cs)[i] in Releases(cs);
    }
  }

  lemma {:induction false} PressLearns(k: Keys, fs: seq<Family>, flags: set<Family>, c: Code)
    requires c.Mod?
    ensures
      var k' := PressMissing(k, fs, flags);
      Learns(k, k', c) && (c in k.held ==> c in k'.held)
    decreases |fs|
  {
    if fs == [] {
      assert k.sent[|k.sent|..] == [];
    } else if fs[0] !in flags || FamilyHeld(k.held, fs[0]) {
      PressLearns(k, fs[1..], flags, c);
    } else {
      var pressed := Mod(fs[0], false);
      var k1 := Keys(Add(k.held, pressed), Add(k.synth, pressed), k.sent + [Sent(pressed, true)]);
      var k' := PressMissing(k1, fs[1..], flags);
      PressLearns(k1, fs[1..], flags, c);
      DeviceAdd(k.sent, Sent(pressed, true));
      TellsOne(k, k1, Sent(pressed, true), c);
      TellsBoth(k, k1, k', c);
    }
  }

  /** What the device knows of a modifier after one key event. */
  lemma KeyLearns(k: Keys, e: KeyEvent, c: Code)
    requires c.Mod? && Tidy(k)
    ensures Learns(k, OnKey(k, e), c)
  {
    var k' := OnKey(k, e);
    if e.code.Mod? {
      DeviceAdd(k.sent, Sent(e.code, e.down));
      TellsOne(k, k', Sent(e.code, e.down), c);
    } else if e.down {
      PlainDownLearns(k, e, c);
    } else {
      PlainUpLearns(k, e, c);
    }
  }

  lemma PlainDownLearns(k: Keys, e: KeyEvent, c: Code)
    requires c.Mod? && e.code.Plain? && e.down
    ensures Learns(k, OnKey(k, e), c)
  {
    var k' := OnKey(k, e);
    var k1 := PressMissing(k, FAMILIES, e.flags);
    PressLearns(k, FAMILIES, e.flags, c);
    hide PressMissing;
    DeviceAdd(k1.sent, Sent(e.code, true));
    TellsOne(k1, k', Sent(e.code, true), c);
    TellsBoth(k, k1, k', c);
  }

  lemma PlainUpLearns(k: Keys, e: KeyEvent, c: Code)
    requires c.Mod? && e.code.Plain? && !e.down && Tidy(k)
    ensures Learns(k, OnKey(k, e), c)
  {
    var k' := OnKey(k, e);
    var k1 := k.(sent := k.sent + [Sent(e.code, false)]);
    SynthAreMods(k);
    DeviceAdd(k.sent, Sent(e.code, false));
    DeviceReleases(k1.sent, k.synth);
    TellsOne(k, k1, Sent(e.code, false), c);
    TellsReleases(k1, k', k.synth, c);
    TellsBoth(k, k1, k', c);
  }

  lemma SynthAreMods(k: Keys)
    requires Tidy(k)
    ensures OnlyMods(k.synth)
  {
    assert forall c <- k.synth :: c in Elements(k.synth) && c in Elements(k.held);
  }

  lemma HandleLearns(s: Session, e: Event, c: Code)
    requires c.Mod? && Tidy(s.keys)
    ensures Learns(s.keys, Handle(s, e).keys, c)
  {
    var k, k' := s.keys, Handle(s, e).keys;
    if e.Key? && s.open {
      KeyLearns(k, e.e, c);
    } else if e.Blur? && s.open {
      DeviceReleases(k.sent, k.held);
      TellsReleases(k, k', k.held, c);
    } else {
      assert k'.sent[|k.sent|..] == [];
    }
  }

  /** Whether the page held this modifier when it last told the device about it; `known` before that. */
  predicate LastSaid(s: Session, events: seq<Event>, c: Code, known: bool)
    decreases |events|
  {
    if events == [] then known
    else
      var s' := Handle(s, events[0]);
      LastSaid(s', events[1..], c, if Tells(s.keys, s'.keys, c) then c in s'.keys.held else known)
  }

  lemma {:induction false} DeviceKnowsLastSaid(s: Session, events: seq<Event>, c: Code)
    requires c.Mod? && Tidy(s.keys) && Elements(s.keys.held) <= Device(s.keys.sent)
    ensures c in Device(Run(s, events).keys.sent) <==> LastSaid(s, events, c, c in Device(s.keys.sent))
    decreases |events|
  {
    if events != [] {
      HandleLearns(s, events[0], c);
      PageNeverOverclaims(s, [events[0]]);
      assert Run(s, [events[0]]) == Handle(s, events[0]);
      hide Handle, Tells, Tidy;
      DeviceKnowsLastSaid(Handle(s, events[0]), events[1..], c);
    }
  }

  lemma {:induction false} DeviceHoldsMods(sent: seq<Sent>)
    ensures forall c: Code :: c in Device(sent) ==> c.Mod?
  {
    if sent != [] {
      DeviceHoldsMods(sent[..|sent| - 1]);
    }
  }

  /**
   * Over every run of keys, blurs and channel changes, the device holds exactly what the page believes held
   * if and only if each modifier is held, or not, as it was when the page last told the device about it.
   */
  lemma ModifiersAgreeExactly(s: Session, events: seq<Event>)
    requires Tidy(s.keys) && Agrees(s.keys)
    ensures
      Agrees(Run(s, events).keys)
      <==> forall c: Code :: c.Mod? ==> (c in Run(s, events).keys.held <==> LastSaid(s, events, c, c in s.keys.held))
  {
    var k := Run(s, events).keys;
    PageNeverOverclaims(s, events);
    DeviceHoldsMods(k.sent);
    forall c: Code | c.Mod?
      ensures c in Device(k.sent) <==> LastSaid(s, events, c, c in s.keys.held)
    {
      DeviceKnowsLastSaid(s, events, c);
      assert c in Elements(s.keys.held) <==> c in s.keys.held;
    }
    hide Device, LastSaid, Run;
    assert forall c: Code :: c in Elements(k.held) <==> c in k.held;
    if forall c: Code :: c.Mod? ==> (c in k.held <==> c in Device(k.sent)) {
      assert forall c: Code :: c in k.held ==> c.Mod?;
      assert Device(k.sent) == Elements(k.held);
    }
  }

  // ------------------------------------------------------------------- pointers

  datatype Touch = Touch(id: int, down: bool)

  /** In inspect mode a press selects an element instead. */
  datatype PointerEvent = Down(id: int, inspect: bool) | Move(id: int) | Up(id: int) | Link(open: bool)

  /** The page's side: whether the channel is open, the pointers it tracks, every touch sent so far. */
  datatype Fingers = Fingers(open: bool, active: set<int>, sent: seq<Touch>)

  /** `send`: lost when the channel is not open. */
  function SendTouch(f: Fingers, id: int, down: bool): Fingers {
    if f.open then f.(sent := f.sent + [Touch(id, down)]) else f
  }

  function OnPointer(f: Fingers, e: PointerEvent): Fingers {
    match e
    case Down(id, inspect) => if inspect then f else SendTouch(f.(active := f.active + {id}), id, true)
    case Move(id) => if id in f.active then SendTouch(f, id, true) else f
    case Up(id) => if id in f.active then SendTouch(f.(active := f.active - {id}), id, false) else f
    case Link(open) => f.(open := open)
  }

  class Pointers {
    var open: bool
    var inspectMode: bool
    var activePointers: set<int>
    var sent: seq<Touch>

    function State(): Fingers
      reads this
    {
      Fingers(open, activePointers, sent)
    }

    constructor ()
      ensures !inspectMode && State() == Fingers(false, {}, [])
    {
      open, inspectMode, activePointers, sent := false, false, {}, [];
    }

    method Send(id: int, down: bool)
      modifies this`sent
      ensures State() == SendTouch(old(State()), id, down)
      ensures forall i: int :: i in Touching(sent) <==> if open && i == id then down else i in Touching(old(sent))
    {
      if !open {
        return;
      }
      TouchAdd(sent, Touch(id, down));
      sent := sent + [Touch(id, down)];
    }

    method PointerDown(id: int)
      modifies this`activePointers, this`sent
      ensures State() == OnPointer(old(State()), Down(id, inspectMode))
    {
      if inspectMode {
        return;
      }
      activePointers := activePointers + {id};
      Send(id, true);
    }

    method PointerMove(id: int)
      modifies this`sent
      ensures State() == OnPointer(old(State()), Move(id))
    {
      if id in activePointers {
        Send(id, true);
      }
    }

    method PointerUp(id: int)
      modifies this`activePointers, this`sent
      ensures State() == OnPointer(old(State()), Up(id))
    {
      if id !in activePointers {
        return;
      }
      activePointers := activePointers - {id};
      Send(id, false);
    }
  }

  /** The fingers a touch screen holds after these messages. */
  function Touching(sent: seq<Touch>): set<int> {
    if sent == [] then {}
    else
      var last, before := sent[|sent| - 1], Touching(sent[..|sent| - 1]);
      if last.down then before + {last.id} else before - {last.id}
  }

  lemma TouchAdd(sent: seq<Touch>, m: Touch)
    ensures Touching(sent + [m]) == if m.down then Touching(sent) + {m.id} else Touching(sent) - {m.id}
  {
    assert (sent + [m])[..|sent|] == sent;
  }

  /** Every lift sent is of a finger the device holds. */
  ghost predicate LiftsMatch(sent: seq<Touch>) {
    forall i :: 0 <= i < |sent| && !sent[i].down ==> sent[i].id in Touching(sent[..i])
  }

  /** The device holds exactly the tracked pointers. */
  predicate TouchesMatch(f: Fingers) {
    Touching(f.sent) == f.active
  }

  /** The finger an event is about: a press that selects, and a stray move or lift, are about none. */
  function About(f: Fingers, e: PointerEvent): Option<int> {
    match e
    case Down(id, inspect) => if inspect then None else Some(id)
    case Move(id) => if id in f.active then Some(id) else None
    case Up(id) => if id in f.active then Some(id) else None
    case Link(_) => None
  }

  /** What the device holds after one event: it learns about the event's finger, on an open channel only. */
  lemma DeviceLearns(f: Fingers, e: PointerEvent, id: int)
    ensures
      var f' := OnPointer(f, e);
      id in Touching(f'.sent) <==> if f.open && About(f, e) == Some(id) then id in f'.active else id in Touching(f.sent)
  {
    if About(f, e).Some? {
      TouchAdd(f.sent, Touch(About(f, e).value, !e.Up?));
    }
  }

  /**
   * One event keeps page and device in agreement exactly when the channel is open or no finger is put
   * down or lifted by it.
   */
  lemma TouchKeeps(f: Fingers, e: PointerEvent)
    requires TouchesMatch(f)
    ensures TouchesMatch(OnPointer(f, e)) <==> f.open || OnPointer(f, e).active == f.active
  {
    var f' := OnPointer(f, e);
    OthersStay(f, e);
    forall id: int
      ensures id in Touching(f'.sent) <==>
              if f.open && About(f, e) == Some(id) then id in f'.active else id in f.active
    {
      DeviceLearns(f, e, id);
    }
    hide Touching, OnPointer, About;
    assert f.open ==> Touching(f'.sent) == f'.active;
    assert !f.open ==> Touching(f'.sent) == f.active;
  }

  lemma OthersStay(f: Fingers, e: PointerEvent)
    ensures forall id: int :: About(f, e) != Some(id) ==> (id in OnPointer(f, e).active <==> id in f.active)
  {
  }

  /**
   * What one pointer event sends, if the channel is open: a press or a lift of the event's finger, and a move as
   * a press of it again; nothing in inspect mode, for a finger that is not tracked, or on a closed channel.
   */
  lemma PointerSendsExactly(f: Fingers, e: PointerEvent)
    ensures
      var f' := OnPointer(f, e);
      && f'.sent == f.sent + (if !f.open then []
                              else match e
                                case Down(id, inspect) => if inspect then [] else [Touch(id, true)]
                                case Move(id) => if id in f.active then [Touch(id, true)] else []
                                case Up(id) => if id in f.active then [Touch(id, false)] else []
                                case Link(_) => [])
      && f'.active == (match e
                       case Down(id, inspect) => if inspect then f.active else f.active + {id}
                       case Up(id) => f.active - {id}
                       case _ => f.active)
      && f'.open == (if e.Link? then e.open else f.open)
  {
  }

  /** In agreement, a lift that is sent is of a finger that is down. */
  lemma LiftsKeep(f: Fingers, e: PointerEvent)
    requires TouchesMatch(f) && LiftsMatch(f.sent)
    ensures LiftsMatch(OnPointer(f, e).sent)
  {
    var sent, sent' := f.sent, OnPointer(f, e).sent;
    if sent' != sent {
      assert sent'[..|sent|] == sent;
      assert forall i :: 0 <= i <= |sent| ==> sent'[..i] == sent[..i];
    }
  }

  function RunPointers(f: Fingers, events: seq<PointerEvent>): Fingers {
    if events == [] then f else OnPointer(RunPointers(f, events[..|events| - 1]), events[|events| - 1])
  }

  /** Whether the page tracked this finger when the channel last carried something about it. */
  function LastTold(f: Fingers, events: seq<PointerEvent>, id: int): bool {
    if events == [] then id in f.active
    else
      var init, e := events[..|events| - 1], events[|events| - 1];
      var before := RunPointers(f, init);
      if before.open && About(before, e) == Some(id) then id in RunPointers(f, events).active else LastTold(f, init, id)
  }

  lemma {:induction false} DeviceKnowsLastTold(f: Fingers, events: seq<PointerEvent>, id: int)
    requires TouchesMatch(f)
    ensures id in Touching(RunPointers(f, events).sent) <==> LastTold(f, events, id)
    decreases |events|
  {
    if events != [] {
      var init, e := events[..|events| - 1], events[|events| - 1];
      DeviceKnowsLastTold(f, init, id);
      DeviceLearns(RunPointers(f, init), e, id);
    }
  }

  /**
   * Over every run of presses, moves, lifts, inspect toggles and channel changes, the device holds
   * exactly the tracked pointers if and only if none of them was put down or lifted, unheard, since the
   * channel last carried something about it.
   */
  lemma TouchesAgreeExactly(f: Fingers, events: seq<PointerEvent>)
    requires TouchesMatch(f)
    ensures
      TouchesMatch(RunPointers(f, events))
      <==> forall id: int :: id in RunPointers(f, events).active <==> LastTold(f, events, id)
  {
    var r := RunPointers(f, events);
    forall id: int
      ensures id in Touching(r.sent) <==> LastTold(f, events, id)
    {
      DeviceKnowsLastTold(f, events, id);
    }
    SameFingers(Touching(r.sent), r.active);
  }

  lemma SameFingers(a: set<int>, b: set<int>)
    ensures a == b <==> forall id: int :: id in a <==> id in b
  {
    if forall id: int :: id in a <==> id in b {
      assert a == b;
    }
  }

  /** No finger is put down or lifted while the channel is closed. */
  predicate NoBlindTouch(f: Fingers, events: seq<PointerEvent>) {
    if events == [] then true
    else
      var before := RunPointers(f, events[..|events| - 1]);
      NoBlindTouch(f, events[..|events| - 1]) && (before.open || RunPointers(f, events).active == before.active)
  }

  /** Then they agree throughout, and the device is never told to lift a finger that is not down. */
  lemma {:induction false} TouchesAgree(f: Fingers, events: seq<PointerEvent>)
    requires TouchesMatch(f) && LiftsMatch(f.sent) && NoBlindTouch(f, events)
    ensures
      var r := RunPointers(f, events);
      TouchesMatch(r) && LiftsMatch(r.sent)
    decreases |events|
  {
    if events != [] {
      TouchesAgree(f, events[..|events| - 1]);
      TouchKeeps(RunPointers(f, events[..|events| - 1]), events[|events| - 1]);
      LiftsKeep(RunPointers(f, events[..|events| - 1]), events[|events| - 1]);
    }
  }

  /** A channel that stays open from the first event loses nothing. */
  lemma {:induction false} OpenIsNeverDeaf(f: Fingers, events: seq<PointerEvent>)
    requires f.open && forall i :: 0 <= i < |events| ==> !events[i].Link?
    ensures NoBlindTouch(f, events) && RunPointers(f, events).open
    decreases |events|
  {
    if events != [] {
      OpenIsNeverDeaf(f, events[..|events| - 1]);
    }
  }

  /** A lift after the channel closed leaves the device holding the finger. */
  lemma LiftIsLost(id: int)
    ensures
      var r := RunPointers(Fingers(true, {}, []), [Down(id, false), Link(false), Up(id)]);
      r.active == {} && Touching(r.sent) == {id}
  {
    var f := Fingers(true, {}, []);
    var events := [Down(id, false), Link(false), Up(id)];
    assert events[..2] == [Down(id, false), Link(false)] && events[..2][..1] == [Down(id, false)];
    assert [Down(id, false)][..0] == [];
    assert RunPointers(f, [Down(id, false)]) == Fingers(true, {id}, [Touch(id, true)]);
    assert RunPointers(f, events[..2]) == Fingers(false, {id}, [Touch(id, true)]);
    assert [Touch(id, true)][..0] == [];
  }
}
