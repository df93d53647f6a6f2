/**
 * The live subscribers of `executionEvents.ts`: a map of mutable listener sets, aliased by the
 * unsubscribe closures that were handed out.
 */
module Subscribers {
  import opened Wrappers

  const MAX_RUNS_WATCHED: nat := 500
  const MAX_LISTENERS_PER_RUN: nat := 20

  type RunId = string

  /** A listener function, by its identity. */
  type Listener = nat

  /** A JavaScript Set of functions, in insertion order. */
  class ListenerSet {
    var fns: seq<Listener>

    constructor ()
      ensures fns == []
    {
      fns := [];
    }
  }

  /**
   * The closure `subscribe` returns. It holds on to the Set object, not to the map's entry; `serial`
   * tells two closures over the same things apart.
   */
  datatype Handle = Handle(serial: nat, runId: RunId, listeners: ListenerSet, fn: Listener)

  function Without(s: seq<Listener>, fn: Listener): (r: seq<Listener>)
    ensures forall x :: x in r <==> x in s && x != fn
    ensures |r| <= |s|
    ensures fn !in s ==> r == s
  {
    if s == [] then []
    else
      assert s == [s[0]] + s[1..];
      (if s[0] == fn then [] else [s[0]]) + Without(s[1..], fn)
  }

  lemma {:induction false} WithoutDistinct(s: seq<Listener>, fn: Listener)
    requires Distinct(s)
    ensures Distinct(Without(s, fn))
    decreases |s|
  {
    if s != [] {
      assert s == [s[0]] + s[1..];
      WithoutDistinct(s[1..], fn);
      assert s[0] !in s[1..];
    }
  }

  // ----------------------------------------------------------- the heap, as a value

  /**
   * The map, the contents of every Set object in reach, the handles given out (`issued`) and those of
   * them not called yet (`live`).
   */
  datatype State = State(
    runs: map<RunId, ListenerSet>, fns: map<ListenerSet, seq<Listener>>, issued: set<Handle>, live: set<Handle>)

  predicate Full(s: State, runId: RunId)
    requires InReach(s)
  {
    if runId in s.runs then |s.fns[s.runs[runId]]| >= MAX_LISTENERS_PER_RUN else |s.runs| >= MAX_RUNS_WATCHED
  }

  /** A subscription that no cap refuses; `h.listeners` is the run's Set, or the new one. */
  function Subscribed(s: State, h: Handle): State
    requires InReach(s)
  {
    var before := if h.listeners in s.fns then s.fns[h.listeners] else [];
    State(s.runs[h.runId := h.listeners],
          s.fns[h.listeners := if h.fn in before then before else before + [h.fn]],
          s.issued + {h}, s.live + {h})
  }

  /** One call of a closure: delete from its Set; drop the run's entry if that Set is empty now. */
  function Unsubscribed(s: State, h: Handle): State
    requires h.listeners in s.fns
  {
    var after := Without(s.fns[h.listeners], h.fn);
    State(if after == [] then s.runs - {h.runId} else s.runs, s.fns[h.listeners := after], s.issued, s.live - {h})
  }

  predicate InReach(s: State) {
    && (forall r <- s.runs :: s.runs[r] in s.fns)
    && (forall h <- s.issued :: h.listeners in s.fns)
    && s.live <= s.issued
  }

  /** Each watched run has a Set of its own, neither empty nor above the cap; and there are not too many. */
  predicate Bounded(s: State)
    requires InReach(s)
  {
    && |s.runs| <= 500
    && (forall r <- s.runs :: s.fns[s.runs[r]] != [] && |s.fns[s.runs[r]]| <= 20)
    && (forall r <- s.runs :: Distinct(s.fns[s.runs[r]]))
    && (forall r <- s.runs, q <- s.runs :: s.runs[r] == s.runs[q] ==> r == q)
  }

  predicate Registered(s: State, h: Handle)
    requires InReach(s)
  {
    h.runId in s.runs && s.runs[h.runId] == h.listeners && h.fn in s.fns[h.listeners]
  }

  /** Some live handle stands for this listener of this run. */
  predicate Backed(s: State, r: RunId, fn: Listener) {
    exists h <- s.live :: h.runId == r && h.fn == fn
  }

  /** Live handles and registered listeners correspond one to one. */
  ghost predicate Agrees(s: State)
    requires InReach(s)
  {
    && (forall h <- s.live :: Registered(s, h))
    && (forall r <- s.runs, fn: Listener :: fn in s.fns[s.runs[r]] ==> Backed(s, r, fn))
    && (forall h <- s.live, g <- s.live :: h.runId == g.runId && h.fn == g.fn ==> h == g)
  }

  /** No handle's Set is registered for another run; a Set no longer registered is empty. */
  predicate Retired(s: State)
    requires InReach(s)
  {
    && (forall h <- s.issued, r <- s.runs :: s.runs[r] == h.listeners ==> r == h.runId)
    && (forall h <- s.issued :: (h.runId in s.runs && s.runs[h.runId] == h.listeners) || s.fns[h.listeners] == [])
  }

  ghost predicate Inv(s: State) {
    InReach(s) && Bounded(s) && Agrees(s) && Retired(s)
  }

  /** No live handle of the run stands for this function. */
  predicate FreshFor(s: State, runId: RunId, fn: Listener) {
    forall h <- s.live :: h.runId == runId ==> h.fn != fn
  }

  /** The handle a successful call returns: over the run's own Set, or a new one. */
  predicate Issues(s: State, h: Handle) {
    && h !in s.issued
    && if h.runId in s.runs then h.listeners == s.runs[h.runId] else h.listeners !in s.fns
  }

  /** One run, and one Set, may differ; all other runs keep their own Sets, and these their contents. */
  predicate SameElsewhere(s: State, t: State, runId: RunId, changed: ListenerSet)
    requires InReach(s) && InReach(t)
  {
    && (forall r <- s.runs :: r != runId ==> r in t.runs)
    && (forall r <- t.runs :: r != runId ==>
          && r in s.runs && t.runs[r] == s.runs[r] != changed
          && t.fns[t.runs[r]] == s.fns[t.runs[r]])
  }

  /** What holds of the runs other than one holds of them after a change elsewhere. */
  lemma ElsewhereKeeps(s: State, t: State, runId: RunId, changed: ListenerSet)
    requires InReach(s) && InReach(t) && Bounded(s) && SameElsewhere(s, t, runId, changed)
    requires |t.runs| <= 500
    requires runId in t.runs ==>
               && t.runs[runId] == changed
               && t.fns[changed] != [] && |t.fns[changed]| <= 20 && Distinct(t.fns[changed])
    ensures Bounded(t)
  {
    hide Distinct;
    forall r | r in t.runs
      ensures t.fns[t.runs[r]] != [] && |t.fns[t.runs[r]]| <= 20 && Distinct(t.fns[t.runs[r]])
    {
      if r != runId {
        assert r in s.runs;
      }
    }
    forall r, q | r in t.runs && q in t.runs && t.runs[r] == t.runs[q]
      ensures r == q
    {
      assert r != runId && q != runId ==> s.runs[r] == s.runs[q];
    }
  }

  lemma SubscribedElsewhere(s: State, h: Handle)
    requires InReach(s) && Bounded(s) && Issues(s, h)
    ensures InReach(Subscribed(s, h)) && SameElsewhere(s, Subscribed(s, h), h.runId, h.listeners)
  {
    hide Distinct;
  }

  lemma OneMoreKey(m: map<RunId, ListenerSet>, r: RunId, x: ListenerSet)
    ensures |m[r := x]| == if r in m then |m| else |m| + 1
  {
    assert m[r := x].Keys == m.Keys + {r};
    assert r in m ==> m.Keys + {r} == m.Keys;
    assert |m| == |m.Keys| && |m[r := x]| == |m[r := x].Keys|;
  }

  lemma SubscribedSizes(s: State, h: Handle)
    requires InReach(s) && Bounded(s) && Issues(s, h) && !Full(s, h.runId)
    ensures
      var t := Subscribed(s, h);
      && h.runId in t.runs && t.runs[h.runId] == h.listeners && |t.runs| <= 500
      && t.fns[h.listeners] != [] && |t.fns[h.listeners]| <= 20 && Distinct(t.fns[h.listeners])
  {
    OneMoreKey(s.runs, h.runId, h.listeners);
  }

  lemma SubscribeBounded(s: State, h: Handle)
    requires InReach(s) && Bounded(s) && Issues(s, h) && !Full(s, h.runId)
    ensures InReach(Subscribed(s, h)) && Bounded(Subscribed(s, h))
  {
    hide Bounded, SameElsewhere, Issues, InReach, Full, Subscribed, Distinct;
    SubscribedElsewhere(s, h);
    SubscribedSizes(s, h);
    ElsewhereKeeps(s, Subscribed(s, h), h.runId, h.listeners);
  }

  lemma SubscribeRetired(s: State, h: Handle)
    requires Inv(s) && Issues(s, h)
    ensures InReach(Subscribed(s, h)) && Retired(Subscribed(s, h))
  {
    hide Distinct, Agrees, Bounded;
    SubscribedElsewhere(s, h);
  }

  lemma SubscribeAgrees(s: State, h: Handle)
    requires Inv(s) && Issues(s, h) && FreshFor(s, h.runId, h.fn)
    ensures InReach(Subscribed(s, h)) && Agrees(Subscribed(s, h))
  {
    hide Distinct, Retired, Bounded;
    var t := Subscribed(s, h);
    SubscribedElsewhere(s, h);
    forall g | g in t.live
      ensures Registered(t, g)
    {
      if g in s.live {
        assert Registered(s, g);
      }
    }
    hide Registered;
    forall r, fn: Listener | r in t.runs && fn in t.fns[t.runs[r]]
      ensures Backed(t, r, fn)
    {
      if r == h.runId && fn == h.fn {
        assert h in t.live;
      } else {
        assert r in s.runs && fn in s.fns[s.runs[r]];
        var g :| g in s.live && g.runId == r && g.fn == fn;
        assert g in t.live;
      }
    }
  }

  /**
   * Subscribing a function keeps the registry sound exactly when no live handle of the run already
   * stands for that function.
   */
  lemma SubscribeExactly(s: State, h: Handle)
    requires Inv(s) && Issues(s, h) && !Full(s, h.runId)
    ensures Inv(Subscribed(s, h)) <==> FreshFor(s, h.runId, h.fn)
  {
    SubscribeBounded(s, h);
    SubscribeRetired(s, h);
    if FreshFor(s, h.runId, h.fn) {
      SubscribeAgrees(s, h);
    } else {
      var g :| g in s.live && g.runId == h.runId && g.fn == h.fn;
      assert g in Subscribed(s, h).live && h in Subscribed(s, h).live && g != h;
    }
  }

  // ----------------------------------------------------------- unsubscribing

  lemma UnsubscribedElsewhere(s: State, h: Handle)
    requires Inv(s) && h in s.live
    ensures InReach(Unsubscribed(s, h)) && SameElsewhere(s, Unsubscribed(s, h), h.runId, h.listeners)
  {
    hide Distinct, Backed;
    assert Registered(s, h);
  }

  lemma UnsubscribeBounded(s: State, h: Handle)
    requires Inv(s) && h in s.live
    ensures InReach(Unsubscribed(s, h)) && Bounded(Unsubscribed(s, h))
  {
    hide Distinct, SameElsewhere, Backed, Retired;
    var t := Unsubscribed(s, h);
    UnsubscribedElsewhere(s, h);
    assert Registered(s, h);
    WithoutDistinct(s.fns[h.listeners], h.fn);
    assert t.runs.Keys <= s.runs.Keys;
    FewerKeys(s.runs, h.runId);
    ElsewhereKeeps(s, t, h.runId, h.listeners);
  }

  lemma FewerKeys(m: map<RunId, ListenerSet>, r: RunId)
    ensures |m - {r}| <= |m|
  {
    assert |m - {r}| == |(m - {r}).Keys| && |m| == |m.Keys|;
    if r in m {
      assert m.Keys == (m - {r}).Keys + {r};
    } else {
      assert m - {r} == m;
    }
  }

  lemma UnsubscribeRetired(s: State, h: Handle)
    requires Inv(s) && h in s.live
    ensures InReach(Unsubscribed(s, h)) && Retired(Unsubscribed(s, h))
  {
    hide Distinct, Bounded, Backed;
    UnsubscribedElsewhere(s, h);
    assert Registered(s, h);
  }

  lemma UnsubscribeAgrees(s: State, h: Handle)
    requires Inv(s) && h in s.live
    ensures InReach(Unsubscribed(s, h)) && Agrees(Unsubscribed(s, h))
  {
    hide Distinct, Bounded, Retired;
    var t := Unsubscribed(s, h);
    UnsubscribedElsewhere(s, h);
    assert Registered(s, h);
    forall g | g in t.live
      ensures Registered(t, g)
    {
      assert Registered(s, g);
    }
    forall r, fn: Listener | r in t.runs && fn in t.fns[t.runs[r]]
      ensures Backed(t, r, fn)
    {
      assert r in s.runs && fn in s.fns[s.runs[r]];
      var g :| g in s.live && g.runId == r && g.fn == fn;
      assert g in t.live;
    }
  }

  /** A handle's first call takes away its own listener and nothing else, and leaves no empty Set. */
  lemma UnsubscribeKeeps(s: State, h: Handle)
    requires Inv(s) && h in s.live
    ensures Inv(Unsubscribed(s, h))
  {
    UnsubscribeBounded(s, h);
    UnsubscribeAgrees(s, h);
    UnsubscribeRetired(s, h);
  }

  datatype Event = Subscribe(h: Handle) | Unsubscribe(h: Handle)

  /** The discipline the callers owe: no function twice for a run, no handle called twice. */
  predicate Linear(s: State, events: seq<Event>)
    requires InReach(s)
    decreases |events|
  {
    events == []
    || (match events[0]
        case Subscribe(h) =>
          Issues(s, h) && !Full(s, h.runId) && FreshFor(s, h.runId, h.fn) && Linear(Subscribed(s, h), events[1..])
        case Unsubscribe(h) => h in s.live && Linear(Unsubscribed(s, h), events[1..]))
  }

  function Run(s: State, events: seq<Event>): State
    requires InReach(s) && Linear(s, events)
    decreases |events|
  {
    if events == [] then s
    else
      match events[0]
      case Subscribe(h) => Run(Subscribed(s, h), events[1..])
      case Unsubscribe(h) => Run(Unsubscribed(s, h), events[1..])
  }

  /**
   * Over every disciplined run: the caps hold, no empty Set stays in the map, every live handle's Set
   * is the one registered for its run, and an event reaches exactly the run's live listeners.
   */
  lemma {:induction false} RunKeeps(s: State, events: seq<Event>)
    requires Inv(s) && Linear(s, events)
    ensures Inv(Run(s, events))
    decreases |events|
  {
    if events != [] {
      hide Bounded, Agrees, Retired;
      match events[0] {
        case Subscribe(h) =>
          SubscribeExactly(s, h);
          RunKeeps(Subscribed(s, h), events[1..]);
        case Unsubscribe(h) =>
          UnsubscribeKeeps(s, h);
          RunKeeps(Unsubscribed(s, h), events[1..]);
      }
    }
  }

  /**
   * A second call of a handle either does nothing at all or takes away a listener that is still live.
   * It is harmless exactly when every live handle of its run shares its Set and stands for another
   * function: in particular when nobody watches the run any more.
   */
  lemma SecondCallExactly(s: State, h: Handle)
    requires Inv(s) && h in s.issued && h !in s.live
    ensures
      var harmless := forall g <- s.live :: g.runId == h.runId ==> g.listeners == h.listeners && g.fn != h.fn;
      && (harmless ==> Unsubscribed(s, h) == s)
      && (Inv(Unsubscribed(s, h)) <==> harmless)
  {
    hide Distinct, Bounded;
    var t := Unsubscribed(s, h);
    if forall g <- s.live :: g.runId == h.runId ==> g.listeners == h.listeners && g.fn != h.fn {
      HarmlessIsIdle(s, h);
    } else {
      var g :| g in s.live && g.runId == h.runId && (g.listeners != h.listeners || g.fn == h.fn);
      assert Registered(s, g);
      assert g in t.live;
      assert !Registered(t, g);
    }
  }

  /** A watched run has a live handle. */
  lemma LiveHandleOf(s: State, r: RunId) returns (g: Handle)
    requires InReach(s) && Bounded(s) && Agrees(s) && r in s.runs
    ensures g in s.live && g.runId == r && s.runs[r] == g.listeners && s.fns[g.listeners] != []
  {
    hide Distinct;
    var fns := s.fns[s.runs[r]];
    assert fns[0] in fns;
    assert Backed(s, r, fns[0]);
    g :| g in s.live && g.runId == r && g.fn == fns[0];
    assert Registered(s, g);
  }

  lemma HarmlessIsIdle(s: State, h: Handle)
    requires Inv(s) && h in s.issued && h !in s.live
    requires forall g <- s.live :: g.runId == h.runId ==> g.listeners == h.listeners && g.fn != h.fn
    ensures Unsubscribed(s, h) == s
  {
    hide Distinct, Bounded;
    var fns := s.fns[h.listeners];
    if h.runId in s.runs {
      var g := LiveHandleOf(s, h.runId);
      assert h.fn in fns ==> Backed(s, h.runId, h.fn);
    } else {
      assert fns == [];
      assert s.runs - {h.runId} == s.runs;
    }
    assert s.fns[h.listeners := fns] == s.fns;
    assert s.live - {h} == s.live;
  }

  lemma NothingYet()
    ensures Inv(State(map[], map[], {}, {}))
  {
  }

  /** A run watched, left, and watched again: the first watcher's second call drops the second one. */
  lemma SecondCallDrops(a: ListenerSet, b: ListenerSet)
    requires a != b
    ensures
      var first, second := Handle(0, "run", a, 1), Handle(1, "run", b, 2);
      var s := Unsubscribed(Subscribed(State(map[], map[], {}, {}), first), first);
      && Inv(s) && Issues(s, second) && !Full(s, "run") && Inv(Subscribed(s, second))
      && second in Unsubscribed(Subscribed(s, second), first).live
      && "run" !in Unsubscribed(Subscribed(s, second), first).runs
  {
    hide Bounded, Agrees, Retired, Distinct, Registered;
    var first, second := Handle(0, "run", a, 1), Handle(1, "run", b, 2);
    var s0 := State(map[], map[], {}, {});
    NothingYet();
    SubscribeExactly(s0, first);
    var s1 := Subscribed(s0, first);
    assert s1.fns[a] == [1] && s1.live == {first};
    UnsubscribeKeeps(s1, first);
    var s2 := Unsubscribed(s1, first);
    assert Without([1], 1) == [];
    assert s2.runs == map[] && s2.live == {} && s2.fns == map[a := []];
    SubscribeExactly(s2, second);
    assert Without([], 1) == [];
  }

  // -------------------------------------------------------------- publishing

  /** Who is called for an event of a run, in order. */
  function Called(s: State, runId: RunId): seq<Listener>
    requires InReach(s)
  {
    if runId in s.runs then s.fns[s.runs[runId]] else []
  }

  /** An event reaches exactly the run's live listeners, each once. */
  lemma PublishReaches(s: State, runId: RunId)
    requires Inv(s)
    ensures Distinct(Called(s, runId))
    ensures forall fn: Listener :: fn in Called(s, runId) <==> Backed(s, runId, fn)
  {
    forall fn: Listener | Backed(s, runId, fn)
      ensures fn in Called(s, runId)
    {
      var h :| h in s.live && h.runId == runId && h.fn == fn;
      assert Registered(s, h);
    }
  }

  // --------------------------------------------------------------- the class

  class Registry {
    var runs: map<RunId, ListenerSet>
    var next: nat
    ghost var issued: set<Handle>
    ghost var live: set<Handle>

    ghost function Sets(): set<ListenerSet>
      reads this
    {
      set h <- issued :: h.listeners
    }

    ghost function View(): State
      reads this, Sets()
    {
      State(runs, map x <- Sets() :: x.fns, issued, live)
    }

    ghost predicate Valid()
      reads this
    {
      live <= issued && (forall h <- issued :: h.serial < next) && (forall r <- runs :: runs[r] in Sets())
    }

    constructor ()
      ensures Valid() && Inv(View()) && issued == {}
    {
      runs, next, issued, live := map[], 0, {}, {};
    }

    /** Reading the heap: the contents of one Set changed, and perhaps a new one came into reach. */
    twostate lemma ViewAfter(new listeners: ListenerSet)
      requires old(Sets()) <= Sets() == old(Sets()) + {listeners}
      requires forall x <- old(Sets()) :: x != listeners ==> x.fns == old(x.fns)
      ensures View().fns == old(View()).fns[listeners := listeners.fns]
    {
    }

    /** `subscribe`: refused exactly at a cap, and then without any effect. */
    method Subscribe(runId: RunId, fn: Listener) returns (r: Option<Handle>)
      requires Valid()
      modifies this, runs.Values
      ensures Valid()
      ensures r.None? <==> old(Full(View(), runId))
      ensures r.None? ==> View() == old(View())
      ensures r.Some? ==>
                && r.value.runId == runId && r.value.fn == fn
                && Issues(old(View()), r.value) && View() == Subscribed(old(View()), r.value)
    {
      hide Bounded, Agrees, Retired;
      var listeners: ListenerSet;
      if runId in runs {
        listeners := runs[runId];
        if |listeners.fns| >= MAX_LISTENERS_PER_RUN {
          return None;
        }
      } else {
        if |runs| >= MAX_RUNS_WATCHED {
          return None;
        }
        listeners := new ListenerSet();
        runs := runs[runId := listeners];
      }
      var h := Add(runId, listeners, fn);
      ViewAfter(listeners);
      r := Some(h);
    }

    /** The rest of `subscribe`, once the run's Set is in the map. */
    method Add(runId: RunId, listeners: ListenerSet, fn: Listener) returns (h: Handle)
      requires live <= issued && (forall g <- issued :: g.serial < next)
      requires runId in runs && runs[runId] == listeners
      requires forall r <- runs :: runs[r] in Sets() + {listeners}
      modifies this`next, this`issued, this`live, listeners
      ensures Valid()
      ensures h == Handle(old(next), runId, listeners, fn) && h !in old(issued)
      ensures issued == old(issued) + {h} && live == old(live) + {h} && Sets() == old(Sets()) + {listeners}
      ensures listeners.fns == if fn in old(listeners.fns) then old(listeners.fns) else old(listeners.fns) + [fn]
    {
      if fn !in listeners.fns {
        listeners.fns := listeners.fns + [fn];
      }
      h := Handle(next, runId, listeners, fn);
      next := next + 1;
      issued, live := issued + {h}, live + {h};
      assert h in issued;
    }

    /** The closure's body. */
    method Unsubscribe(h: Handle)
      requires Valid() && h in issued
      modifies this, h.listeners
      ensures Valid()
      ensures View() == Unsubscribed(old(View()), h)
    {
      ghost var before := View();
      h.listeners.fns := Without(h.listeners.fns, h.fn);
      if h.listeners.fns == [] {
        runs := runs - {h.runId};
      }
      live := live - {h};
      assert View().fns == Unsubscribed(before, h).fns;
    }

    /** `publish`: what each listener does with the event, and whether it throws, is its own affair. */
    method Publish(runId: RunId) returns (called: seq<Listener>)
      requires Valid()
      ensures called == Called(View(), runId)
    {
      called := [];
      if runId !in runs {
        return;
      }
      var fns := runs[runId].fns;
      var i := 0;
      while i < |fns|
        invariant 0 <= i <= |fns|
        invariant called == fns[..i]
      {
        called := called + [fns[i]];
        i := i + 1;
      }
    }
  }

  /** A subscription is refused at 20 listeners of its run, or for a new run at 500 runs. */
  lemma FullExactly(s: State, runId: RunId)
    requires InReach(s)
    ensures Full(s, runId) <==>
              if runId in s.runs then |s.fns[s.runs[runId]]| >= 20 else |s.runs| >= 500
  {
  }
}
