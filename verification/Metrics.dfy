/**
 * The metric families of `metrics.ts`: a capped table of label combinations, and what each series in
 * it says about the events recorded since the last reset. Values are reals.
 */
module Metrics {
  import opened Unicode
  import opened Wrappers

  const MAX_SERIES_PER_METRIC: nat := 2000
  const NUL: u16 := 0

  type Labels = map<JsString, JsString>

  // --------------------------------------------------------------- series keys

  /** One value per label name, the empty string where the caller gave none. */
  function ValuesOf(names: seq<JsString>, labels: Labels): (values: seq<JsString>)
    ensures |values| == |names|
  {
    seq(|names|, i requires 0 <= i < |names| => if names[i] in labels then labels[names[i]] else [])
  }

  /** The map key: the values joined with a NUL. */
  function Join(values: seq<JsString>): JsString {
    if values == [] then []
    else if |values| == 1 then values[0]
    else values[0] + [NUL] + Join(values[1..])
  }

  function KeyOf(names: seq<JsString>, labels: Labels): JsString {
    Join(ValuesOf(names, labels))
  }

  /** Some other tuple of the same metric lands in this tuple's series. */
  ghost predicate Confusable(values: seq<JsString>) {
    exists other: seq<JsString> :: |other| == |values| && other != values && Join(other) == Join(values)
  }

  predicate HasNul(values: seq<JsString>) {
    exists i :: 0 <= i < |values| && 0 in values[i]
  }

  lemma SplitAtNul(a: JsString, b: JsString, s: JsString, t: JsString)
    requires NUL !in a && NUL !in b && a + [NUL] + s == b + [NUL] + t
    ensures a == b && s == t
  {
    var u := a + [NUL] + s;
    assert forall i :: 0 <= i < |a| ==> u[i] == a[i];
    assert forall i :: 0 <= i < |b| ==> u[i] == b[i];
    assert u[|a|] == NUL && u[|b|] == NUL;
    assert a == u[..|a|] == b;
    assert s == u[|a| + 1..] == t;
  }

  /** A tuple of NUL-free values, or of one value, shares its key with no other tuple. */
  lemma {:induction false} NulFreeIsAlone(v: seq<JsString>, w: seq<JsString>)
    requires |v| == |w| && (|v| >= 2 ==> !HasNul(v)) && Join(v) == Join(w)
    ensures v == w
    decreases |v|
  {
    if |v| == 0 {
    } else if |v| == 1 {
      assert v == [v[0]] && w == [w[0]];
    } else {
      NulsCounted(v);
      NulsCounted(w);
      assert forall i :: 0 <= i < |v| - 1 ==> v[1..][i] == v[i + 1];
      assert NUL !in v[0] && NUL !in w[0];
      SplitAtNul(v[0], w[0], Join(v[1..]), Join(w[1..]));
      NulFreeIsAlone(v[1..], w[1..]);
      assert v == [v[0]] + v[1..] && w == [w[0]] + w[1..];
    }
  }

  function Nuls(s: JsString): nat {
    if s == [] then 0 else (if s[0] == NUL then 1 else 0) + Nuls(s[1..])
  }

  lemma {:induction false} NulsAppend(a: JsString, b: JsString)
    ensures Nuls(a + b) == Nuls(a) + Nuls(b)
    decreases |a|
  {
    if a == [] {
      assert a + b == b;
    } else {
      assert (a + b)[1..] == a[1..] + b;
      NulsAppend(a[1..], b);
    }
  }

  lemma {:induction false} NulsPresent(s: JsString)
    ensures Nuls(s) == 0 <==> NUL !in s
    decreases |s|
  {
    if s != [] {
      NulsPresent(s[1..]);
      assert s == [s[0]] + s[1..];
    }
  }

  /** A key has one NUL per separator and one per NUL in the values. */
  lemma {:induction false} NulsCounted(v: seq<JsString>)
    requires v != []
    ensures Nuls(Join(v)) >= |v| - 1
    ensures Nuls(Join(v)) == |v| - 1 <==> !HasNul(v)
    decreases |v|
  {
    NulsPresent(v[0]);
    if |v| > 1 {
      NulsCounted(v[1..]);
      NulsAppend(v[0] + [NUL], Join(v[1..]));
      NulsAppend(v[0], [NUL]);
      assert HasNul(v[1..]) ==> HasNul(v) by {
        if HasNul(v[1..]) {
          var i :| 0 <= i < |v| - 1 && NUL in v[1..][i];
          assert NUL in v[i + 1];
        }
      }
      assert HasNul(v) && NUL !in v[0] ==> HasNul(v[1..]) by {
        if HasNul(v) && NUL !in v[0] {
          var i :| 0 <= i < |v| && NUL in v[i];
          assert NUL in v[1..][i - 1];
        }
      }
    }
  }

  lemma {:induction false} JoinSplit(v: seq<JsString>, w: seq<JsString>)
    requires v != [] && w != []
    ensures Join(v + w) == Join(v) + [NUL] + Join(w)
    decreases |v|
  {
    if |v| == 1 {
      assert v + w == [v[0]] + w;
      assert (v + w)[1..] == w;
    } else {
      assert (v + w)[1..] == v[1..] + w;
      JoinSplit(v[1..], w);
      assert v[0] + [NUL] + (Join(v[1..]) + [NUL] + Join(w)) == v[0] + [NUL] + Join(v[1..]) + [NUL] + Join(w);
    }
  }

  /** Moving the separator of two neighbours onto a NUL inside either of them keeps the key. */
  lemma SeparatorMoves(front: seq<JsString>, a: JsString, b: JsString, c: JsString, back: seq<JsString>)
    ensures Join(front + [a + [NUL] + b, c] + back) == Join(front + [a, b + [NUL] + c] + back)
  {
    var l, r := [a + [NUL] + b, c], [a, b + [NUL] + c];
    assert Join(l) == Join(r) by {
      assert l[1..] == [c] && r[1..] == [b + [NUL] + c];
      assert a + [NUL] + b + [NUL] + c == a + [NUL] + (b + [NUL] + c);
    }
    assert Join(l + back) == Join(r + back) by {
      if back == [] {
        assert l + back == l && r + back == r;
      } else {
        JoinSplit(l, back);
        JoinSplit(r, back);
      }
    }
    if front == [] {
      assert front + l + back == l + back && front + r + back == r + back;
    } else {
      assert front + l + back == front + (l + back) && front + r + back == front + (r + back);
      JoinSplit(front, l + back);
      JoinSplit(front, r + back);
    }
  }

  lemma NulIsConfusable(values: seq<JsString>, i: nat, k: nat)
    requires |values| >= 2 && i < |values| && k < |values[i]| && values[i][k] == NUL
    ensures Confusable(values)
  {
    hide Join;
    var x, y := values[i][..k], values[i][k + 1..];
    assert values[i] == x + [NUL] + y;
    if i + 1 < |values| {
      var front, c, back := values[..i], values[i + 1], values[i + 2..];
      SeparatorMoves(front, x, y, c, back);
      assert values == front + [x + [NUL] + y, c] + back;
      var other := front + [x, y + [NUL] + c] + back;
      assert |other| == |values| && other[i] == x;
    } else {
      var front, a := values[..i - 1], values[i - 1];
      SeparatorMoves(front, a, x, y, []);
      assert values == front + [a, x + [NUL] + y] + [];
      var other := front + [a + [NUL] + x, y] + [];
      assert |other| == |values| && other[i] == y;
    }
  }

  /**
   * Exactly when the separator fails: a tuple shares its series with another tuple of the same
   * metric if and only if the metric has two labels or more and some value contains a NUL.
   */
  lemma ConfusableExactly(values: seq<JsString>)
    ensures Confusable(values) <==> |values| >= 2 && HasNul(values)
  {
    if |values| >= 2 && HasNul(values) {
      var i :| 0 <= i < |values| && NUL in values[i];
      var k :| 0 <= k < |values[i]| && values[i][k] == NUL;
      NulIsConfusable(values, i, k);
    } else if Confusable(values) {
      var other: seq<JsString> :| |other| == |values| && other != values && Join(other) == Join(values);
      NulFreeIsAlone(values, other);
    }
  }

  // ------------------------------------------------------ families, as values

  datatype Cell<S> = Cell(values: seq<JsString>, state: S)

  /** `series` in insertion order, and the count of refused label sets, which no reset clears. */
  datatype Family<S> = Family(order: seq<JsString>, cells: map<JsString, Cell<S>>, dropped: nat)

  /** A rendered unlabelled metric that nothing touched publishes its zero. */
  datatype Event<N> = Update(labels: Labels, n: N) | Reset | Render

  /** What sets one metric apart: its label names, its first state, and what an update does to one. */
  datatype Kind<!S, !N> = Kind(names: seq<JsString>, zero: S, change: (S, N) -> S)

  function Empty<S>(dropped: nat): Family<S> {
    Family([], map[], dropped)
  }

  /** `slot`: the family in which the key has a cell, unless the cap refuses it one. */
  function Slotted<S>(f: Family<S>, key: JsString, values: seq<JsString>, zero: S): Family<S> {
    if key in f.cells then f
    else if |f.order| >= MAX_SERIES_PER_METRIC then f.(dropped := f.dropped + 1)
    else f.(order := f.order + [key], cells := f.cells[key := Cell(values, zero)])
  }

  function Step<S, N>(k: Kind<S, N>, f: Family<S>, e: Event<N>): Family<S> {
    match e
    case Reset => Empty(f.dropped)
    case Render => if k.names == [] && f.order == [] then Slotted(f, [], [], k.zero) else f
    case Update(labels, n) =>
      var key := KeyOf(k.names, labels);
      var g := Slotted(f, key, ValuesOf(k.names, labels), k.zero);
      if key !in g.cells then g
      else g.(cells := g.cells[key := g.cells[key].(state := k.change(g.cells[key].state, n))])
  }

  function Run<S, N>(k: Kind<S, N>, events: seq<Event<N>>): Family<S> {
    if events == [] then Empty(0) else Step(k, Run(k, events[..|events| - 1]), events[|events| - 1])
  }

  // ------------------------------------------- families, told by their history

  /** What was recorded since the last reset. */
  function SinceReset<N>(events: seq<Event<N>>): (r: seq<Event<N>>) {
    if events == [] then []
    else if events[|events| - 1].Reset? then []
    else SinceReset(events[..|events| - 1]) + [events[|events| - 1]]
  }

  /** All that was recorded for one key, oldest first. */
  function Updates<N>(names: seq<JsString>, events: seq<Event<N>>, key: JsString): seq<N> {
    if events == [] then []
    else
      var e := events[|events| - 1];
      Updates(names, events[..|events| - 1], key)
      + (if e.Update? && KeyOf(names, e.labels) == key then [e.n] else [])
  }

  function Fold<S, N>(k: Kind<S, N>, ns: seq<N>): S {
    if ns == [] then k.zero else k.change(Fold(k, ns[..|ns| - 1]), ns[|ns| - 1])
  }

  /** How many updates went to keys outside a set. */
  function Outside<N>(names: seq<JsString>, events: seq<Event<N>>, keys: set<JsString>): nat {
    if events == [] then 0
    else
      var e := events[|events| - 1];
      Outside(names, events[..|events| - 1], keys)
      + (if e.Update? && KeyOf(names, e.labels) !in keys then 1 else 0)
  }

  /** The table and its insertion order agree, the cap holds, and a key is its values' key. */
  ghost predicate Tidy<S>(f: Family<S>) {
    && |f.order| <= 2000
    && Distinct(f.order)
    && (forall key :: key in f.cells <==> key in f.order)
    && (forall key <- f.cells :: Join(f.cells[key].values) == key)
  }

  lemma SlottedTidy<S>(f: Family<S>, values: seq<JsString>, zero: S)
    requires Tidy(f)
    ensures Tidy(Slotted(f, Join(values), values, zero))
  {
    hide Join;
  }

  lemma StepTidy<S, N>(k: Kind<S, N>, f: Family<S>, e: Event<N>)
    requires Tidy(f)
    ensures Tidy(Step(k, f, e))
  {
    assert Join([]) == [];
    hide Join, Slotted, ValuesOf, Distinct;
    SlottedTidy(f, [], k.zero);
    if e.Update? {
      SlottedTidy(f, ValuesOf(k.names, e.labels), k.zero);
    }
  }

  lemma {:induction false} RunTidy<S, N>(k: Kind<S, N>, events: seq<Event<N>>)
    ensures Tidy(Run(k, events))
    decreases |events|
  {
    if events != [] {
      RunTidy(k, events[..|events| - 1]);
      StepTidy(k, Run(k, events[..|events| - 1]), events[|events| - 1]);
    }
  }

  /** Every recorded key has a series, unless the family is full. */
  predicate Served<S, N>(k: Kind<S, N>, f: Family<S>, since: seq<Event<N>>) {
    |f.order| < MAX_SERIES_PER_METRIC ==>
      forall i :: 0 <= i < |since| && since[i].Update? ==> KeyOf(k.names, since[i].labels) in f.cells
  }

  /** A key that has no series while the table has room was never updated: its log is empty. */
  lemma {:induction false} UnservedIsQuiet<N>(names: seq<JsString>, events: seq<Event<N>>, key: JsString)
    requires forall i :: 0 <= i < |events| && events[i].Update? ==> KeyOf(names, events[i].labels) != key
    ensures Updates(names, events, key) == []
    decreases |events|
  {
    if events != [] {
      var init := events[..|events| - 1];
      assert forall i :: 0 <= i < |init| ==> init[i] == events[i];
      UnservedIsQuiet(names, init, key);
    }
  }

  /**
   * Each present series is exactly the fold of all its updates since the last reset: never a part of
   * them, even when the cap was reached in between.
   */
  lemma {:induction false} SeriesAreTheirUpdates<S, N>(k: Kind<S, N>, events: seq<Event<N>>)
    ensures Served(k, Run(k, events), SinceReset(events))
    ensures forall key <- Run(k, events).cells ::
              Run(k, events).cells[key].state == Fold(k, Updates(k.names, SinceReset(events), key))
    decreases |events|
  {
    if events != [] {
      var init, e := events[..|events| - 1], events[|events| - 1];
      SeriesAreTheirUpdates(k, init);
      if !e.Reset? {
        StepIsFold(k, Run(k, init), SinceReset(init), e);
      }
    }
  }

  lemma StepIsFold<S, N>(k: Kind<S, N>, f: Family<S>, since: seq<Event<N>>, e: Event<N>)
    requires !e.Reset? && Served(k, f, since)
    requires forall key <- f.cells :: f.cells[key].state == Fold(k, Updates(k.names, since, key))
    ensures Served(k, Step(k, f, e), since + [e])
    ensures forall key <- Step(k, f, e).cells ::
              Step(k, f, e).cells[key].state == Fold(k, Updates(k.names, since + [e], key))
  {
    var g := Step(k, f, e);
    StepServes(k, f, since, e);
    forall key | key in g.cells
      ensures g.cells[key].state == Fold(k, Updates(k.names, since + [e], key))
    {
      if key !in f.cells {
        NewIsQuiet(k, f, since, e, key);
      }
      CellAfter(k, f, e, key);
      FoldAfter(k, since, e, key);
    }
  }

  lemma StepServes<S, N>(k: Kind<S, N>, f: Family<S>, since: seq<Event<N>>, e: Event<N>)
    requires !e.Reset? && Served(k, f, since)
    ensures Served(k, Step(k, f, e), since + [e])
  {
    hide KeyOf, ValuesOf;
  }

  /** A key that gets its series now was never updated before. */
  lemma NewIsQuiet<S, N>(k: Kind<S, N>, f: Family<S>, since: seq<Event<N>>, e: Event<N>, key: JsString)
    requires !e.Reset? && Served(k, f, since) && key !in f.cells && key in Step(k, f, e).cells
    ensures Updates(k.names, since, key) == []
  {
    hide KeyOf, ValuesOf, Updates;
    assert |f.order| < MAX_SERIES_PER_METRIC;
    UnservedIsQuiet(k.names, since, key);
  }

  lemma CellAfter<S, N>(k: Kind<S, N>, f: Family<S>, e: Event<N>, key: JsString)
    requires !e.Reset? && key in Step(k, f, e).cells
    ensures
      var before := if key in f.cells then f.cells[key].state else k.zero;
      Step(k, f, e).cells[key].state
      == if e.Update? && KeyOf(k.names, e.labels) == key then k.change(before, e.n) else before
  {
    hide KeyOf, ValuesOf;
  }

  lemma FoldAfter<S, N>(k: Kind<S, N>, since: seq<Event<N>>, e: Event<N>, key: JsString)
    ensures
      var before := Fold(k, Updates(k.names, since, key));
      Fold(k, Updates(k.names, since + [e], key))
      == if e.Update? && KeyOf(k.names, e.labels) == key then k.change(before, e.n) else before
  {
    hide KeyOf;
    assert (since + [e])[..|since|] == since;
    var ns := Updates(k.names, since, key);
    if e.Update? && KeyOf(k.names, e.labels) == key {
      assert (ns + [e.n])[..|ns|] == ns;
    } else {
      assert ns + [] == ns;
    }
  }

  lemma KeysStay<S, N>(k: Kind<S, N>, f: Family<S>, e: Event<N>)
    requires !e.Reset?
    ensures f.cells.Keys <= Step(k, f, e).cells.Keys
    ensures |f.order| >= 2000 ==> Step(k, f, e).cells.Keys == f.cells.Keys && Step(k, f, e).order == f.order
  {
  }

  lemma {:induction false} ServedMisses<N>(names: seq<JsString>, events: seq<Event<N>>, keys: set<JsString>)
    requires forall i :: 0 <= i < |events| && events[i].Update? ==> KeyOf(names, events[i].labels) in keys
    ensures Outside(names, events, keys) == 0
    decreases |events|
  {
    if events != [] {
      var init := events[..|events| - 1];
      assert forall i :: 0 <= i < |init| ==> init[i] == events[i];
      ServedMisses(names, init, keys);
    }
  }

  /** The log up to and including the last reset. */
  function UpToReset<N>(events: seq<Event<N>>): seq<Event<N>> {
    if events == [] || events[|events| - 1].Reset? then events else UpToReset(events[..|events| - 1])
  }

  /**
   * `dropped` grew, since the last reset, by exactly the updates whose key has no series. As the set
   * of keys only grows until the next reset, a label set that was refused once is refused throughout.
   */
  lemma {:induction false} DroppedIsRefused<S, N>(k: Kind<S, N>, events: seq<Event<N>>)
    ensures
      Run(k, events).dropped
      == Run(k, UpToReset(events)).dropped + Outside(k.names, SinceReset(events), Run(k, events).cells.Keys)
    decreases |events|
  {
    if events != [] && !events[|events| - 1].Reset? {
      var init, e := events[..|events| - 1], events[|events| - 1];
      var since := SinceReset(init);
      var f, g := Run(k, init), Run(k, events);
      assert (since + [e])[..|since|] == since;
      DroppedIsRefused(k, init);
      SeriesAreTheirUpdates(k, init);
      KeysStay(k, f, e);
      if |f.order| < MAX_SERIES_PER_METRIC {
        ServedMisses(k.names, since, f.cells.Keys);
        ServedMisses(k.names, since, g.cells.Keys);
      }
    }
  }

  lemma FullStep<S, N>(k: Kind<S, N>, f: Family<S>, e: Event<N>)
    requires !e.Reset? && |f.order| >= 2000
    ensures
      var g := Step(k, f, e);
      && g.cells.Keys == f.cells.Keys && g.order == f.order
      && g.dropped == f.dropped + if e.Update? && KeyOf(k.names, e.labels) !in f.cells then 1 else 0
  {
    hide KeyOf, ValuesOf;
  }

  /** Until the next reset a full family keeps its keys: what it refused it goes on refusing. */
  lemma {:induction false} FullStaysFull<S, N>(k: Kind<S, N>, events: seq<Event<N>>, later: seq<Event<N>>)
    requires |Run(k, events).order| >= 2000
    requires forall i :: 0 <= i < |later| ==> !later[i].Reset?
    ensures Run(k, events + later).cells.Keys == Run(k, events).cells.Keys
    ensures Run(k, events + later).dropped == Run(k, events).dropped + Outside(k.names, later, Run(k, events).cells.Keys)
    ensures Run(k, events + later).order == Run(k, events).order
    decreases |later|
  {
    if later == [] {
      assert events + later == events;
    } else {
      hide Step, KeyOf;
      var init, e := later[..|later| - 1], later[|later| - 1];
      var all := events + later;
      assert all[..|all| - 1] == events + init && all[|all| - 1] == e;
      FullStaysFull(k, events, init);
      FullStep(k, Run(k, events + init), e);
    }
  }

  // ------------------------------------------------------- the three kinds

  function CounterKind(names: seq<JsString>): Kind<real, real> {
    Kind(names, 0.0, (v: real, n: real) => v + n)
  }

  function GaugeKind(names: seq<JsString>): Kind<real, real> {
    Kind(names, 0.0, (_: real, n: real) => n)
  }

  datatype Hist = Hist(buckets: seq<nat>, sum: real, count: nat)

  function HistogramKind(names: seq<JsString>, bounds: seq<real>): Kind<Hist, real> {
    Kind(names, Hist(seq(|bounds|, _ => 0), 0.0, 0), (h: Hist, x: real) => Observed(h, bounds, x))
  }

  /** One observation: every bucket whose bound it does not exceed, the sum and the count. */
  function Observed(h: Hist, bounds: seq<real>, x: real): Hist {
    Hist(
      seq(|h.buckets|, i requires 0 <= i < |h.buckets| =>
        if i < |bounds| && x <= bounds[i] then h.buckets[i] + 1 else h.buckets[i]),
      h.sum + x, h.count + 1)
  }

  function Sum(ns: seq<real>): real {
    if ns == [] then 0.0 else Sum(ns[..|ns| - 1]) + ns[|ns| - 1]
  }

  function AtMost(ns: seq<real>, bound: real): (r: nat)
    ensures r <= |ns|
  {
    if ns == [] then 0 else AtMost(ns[..|ns| - 1], bound) + (if ns[|ns| - 1] <= bound then 1 else 0)
  }

  lemma {:induction false} CounterFold(names: seq<JsString>, ns: seq<real>)
    ensures Fold(CounterKind(names), ns) == Sum(ns)
    decreases |ns|
  {
    if ns != [] {
      CounterFold(names, ns[..|ns| - 1]);
    }
  }

  lemma {:induction false} HistogramFold(names: seq<JsString>, bounds: seq<real>, ns: seq<real>)
    ensures
      var h := Fold(HistogramKind(names, bounds), ns);
      && |h.buckets| == |bounds| && h.sum == Sum(ns) && h.count == |ns|
      && (forall i :: 0 <= i < |bounds| ==> h.buckets[i] == AtMost(ns, bounds[i]))
    decreases |ns|
  {
    if ns != [] {
      HistogramFold(names, bounds, ns[..|ns| - 1]);
    }
  }

  /** A counter's series is the sum of all increments of its labels since the last reset. */
  lemma CounterIsSum(names: seq<JsString>, events: seq<Event<real>>, key: JsString)
    requires key in Run(CounterKind(names), events).cells
    ensures Run(CounterKind(names), events).cells[key].state == Sum(Updates(names, SinceReset(events), key))
  {
    SeriesAreTheirUpdates(CounterKind(names), events);
    CounterFold(names, Updates(names, SinceReset(events), key));
  }

  /** A gauge's series is the last value set for its labels, or the zero of a rendered empty metric. */
  lemma GaugeIsLast(names: seq<JsString>, events: seq<Event<real>>, key: JsString)
    requires key in Run(GaugeKind(names), events).cells
    ensures
      var ns := Updates(names, SinceReset(events), key);
      Run(GaugeKind(names), events).cells[key].state == if ns == [] then 0.0 else ns[|ns| - 1]
  {
    SeriesAreTheirUpdates(GaugeKind(names), events);
  }

  predicate Sorted(s: seq<real>) {
    forall i, j :: 0 <= i <= j < |s| ==> s[i] <= s[j]
  }

  lemma {:induction false} AtMostMonotone(ns: seq<real>, a: real, b: real)
    requires a <= b
    ensures AtMost(ns, a) <= AtMost(ns, b)
    decreases |ns|
  {
    if ns != [] {
      AtMostMonotone(ns[..|ns| - 1], a, b);
    }
  }

  /**
   * A histogram's buckets count the observations at or below their bounds, never decrease from one
   * bound to the next, and never exceed the count, which is also the `+Inf` bucket.
   */
  lemma HistogramCounts(names: seq<JsString>, bounds: seq<real>, events: seq<Event<real>>, key: JsString)
    requires Sorted(bounds) && key in Run(HistogramKind(names, bounds), events).cells
    ensures
      var h := Run(HistogramKind(names, bounds), events).cells[key].state;
      var ns := Updates(names, SinceReset(events), key);
      && |h.buckets| == |bounds| && h.count == |ns| && h.sum == Sum(ns)
      && (forall i :: 0 <= i < |bounds| ==> h.buckets[i] == AtMost(ns, bounds[i]) <= h.count)
      && (forall i, j :: 0 <= i <= j < |bounds| ==> h.buckets[i] <= h.buckets[j])
  {
    var k := HistogramKind(names, bounds);
    var ns := Updates(names, SinceReset(events), key);
    SeriesAreTheirUpdates(k, events);
    HistogramFold(names, bounds, ns);
    forall i, j | 0 <= i <= j < |bounds|
      ensures AtMost(ns, bounds[i]) <= AtMost(ns, bounds[j])
    {
      AtMostMonotone(ns, bounds[i], bounds[j]);
    }
  }

  /** The `le` label of a rendered bucket line. */
  datatype Bound = UpTo(limit: real) | Infinite

  /** The bucket lines of a rendered histogram series: one per bound, then `+Inf` with the count. */
  function BucketLines(h: Hist, bounds: seq<real>): seq<(Bound, nat)>
    requires |h.buckets| == |bounds|
  {
    seq(|bounds| + 1, i requires 0 <= i <= |bounds| =>
      if i < |bounds| then (UpTo(bounds[i]), h.buckets[i]) else (Infinite, h.count))
  }

  function Covered(ns: seq<real>, b: Bound): nat {
    if ns == [] then 0
    else Covered(ns[..|ns| - 1], b) + (if b.Infinite? || ns[|ns| - 1] <= b.limit then 1 else 0)
  }

  lemma {:induction false} CoveredIs(ns: seq<real>, b: Bound)
    ensures Covered(ns, b) == if b.Infinite? then |ns| else AtMost(ns, b.limit)
    decreases |ns|
  {
    if ns != [] {
      CoveredIs(ns[..|ns| - 1], b);
    }
  }

  /**
   * What is published: every bucket line, `+Inf` included, carries the number of observations its bound
   * covers since the last reset; the numbers never decrease; and the last line is `+Inf`.
   */
  lemma LinesAreCumulative(names: seq<JsString>, bounds: seq<real>, events: seq<Event<real>>, key: JsString)
    requires Sorted(bounds) && key in Run(HistogramKind(names, bounds), events).cells
    ensures
      var h := Run(HistogramKind(names, bounds), events).cells[key].state;
      var ns := Updates(names, SinceReset(events), key);
      && |h.buckets| == |bounds|
      && (forall line <- BucketLines(h, bounds) :: line.1 == Covered(ns, line.0))
      && (forall i :: 0 <= i < |bounds| ==> BucketLines(h, bounds)[i].0 == UpTo(bounds[i]))
      && (forall i, j :: 0 <= i <= j <= |bounds| ==> BucketLines(h, bounds)[i].1 <= BucketLines(h, bounds)[j].1)
      && BucketLines(h, bounds)[|bounds|] == (Infinite, h.count)
  {
    hide Run, Updates, SinceReset, AtMost;
    HistogramCounts(names, bounds, events, key);
    var ns := Updates(names, SinceReset(events), key);
    forall b: Bound
      ensures Covered(ns, b) == if b.Infinite? then |ns| else AtMost(ns, b.limit)
    {
      CoveredIs(ns, b);
    }
  }

  /** A metric without labels always renders a series, touched or not. */
  lemma UnlabelledIsPublished<S, N>(k: Kind<S, N>, events: seq<Event<N>>)
    requires k.names == []
    ensures Run(k, events + [Render]).order == [[]]
  {
    var all := events + [Render];
    assert all[..|all| - 1] == events;
    OnlyTheEmptyKey(k, events);
  }

  lemma {:induction false} OnlyTheEmptyKey<S, N>(k: Kind<S, N>, events: seq<Event<N>>)
    requires k.names == []
    ensures Tidy(Run(k, events)) && (Run(k, events).order == [] || Run(k, events).order == [[]])
    decreases |events|
  {
    RunTidy(k, events);
    if events != [] {
      OnlyTheEmptyKey(k, events[..|events| - 1]);
    }
  }

  // ------------------------------------------------------------ the classes

  /** The part all metrics share: the table, its insertion order and the drop count. */
  class Table<S> {
    const names: seq<JsString>
    const zero: S
    var order: seq<JsString>
    var series: map<JsString, Cell<S>>
    var dropped: nat

    constructor (names: seq<JsString>, zero: S)
      ensures this.names == names && this.zero == zero && View() == Empty(0)
    {
      this.names, this.zero := names, zero;
      order, series, dropped := [], map[], 0;
    }

    ghost function View(): Family<S>
      reads this
    {
      Family(order, series, dropped)
    }

    method Slot(labels: Labels) returns (slot: Option<JsString>)
      modifies this
      ensures View() == Slotted(old(View()), KeyOf(names, labels), ValuesOf(names, labels), zero)
      ensures slot == if KeyOf(names, labels) in series then Some(KeyOf(names, labels)) else None
    {
      var values := ValuesOf(names, labels);
      var key := Join(values);
      if key !in series {
        if |order| >= MAX_SERIES_PER_METRIC {
          dropped := dropped + 1;
          return None;
        }
        order := order + [key];
        series := series[key := Cell(values, zero)];
      }
      return Some(key);
    }

    method Clear()
      modifies this
      ensures View() == Empty(old(dropped))
    {
      order, series := [], map[];
    }

    /** What `render` does to the table before it prints it. */
    method Publish()
      modifies this
      ensures View() == if names == [] && old(order) == [] then Slotted(old(View()), [], [], zero) else old(View())
    {
      if names == [] && order == [] {
        var _ := Slot(map[]);
      }
    }
  }

  class Counter {
    const table: Table<real>

    constructor (names: seq<JsString>)
      ensures fresh(table) && table.names == names && table.zero == 0.0 && table.View() == Empty(0)
    {
      table := new Table(names, 0.0);
    }

    method Inc(labels: Labels, n: real)
      requires table.zero == 0.0
      modifies table
      ensures table.View() == Step(CounterKind(table.names), old(table.View()), Update(labels, n))
    {
      var slot := table.Slot(labels);
      if slot.Some? {
        var cell := table.series[slot.value];
        table.series := table.series[slot.value := cell.(state := cell.state + n)];
      }
    }
  }

  function Insert(x: real, s: seq<real>): (r: seq<real>)
    ensures multiset(r) == multiset(s) + multiset{x}
  {
    if s == [] || x <= s[0] then [x] + s
    else
      assert s == [s[0]] + s[1..];
      [s[0]] + Insert(x, s[1..])
  }

  lemma {:induction false} InsertSorts(x: real, s: seq<real>)
    requires Sorted(s)
    ensures Sorted(Insert(x, s))
    decreases |s|
  {
    if s != [] && x > s[0] {
      var r := Insert(x, s[1..]);
      assert Sorted(s[1..]);
      InsertSorts(x, s[1..]);
      forall i | 0 <= i < |r|
        ensures s[0] <= r[i]
      {
        assert r[i] in multiset(s[1..]) + multiset{x};
      }
    }
  }

  /** The bounds in ascending order, whatever order they were given in. */
  function SortBounds(s: seq<real>): (r: seq<real>)
    ensures Sorted(r) && multiset(r) == multiset(s)
  {
    if s == [] then []
    else
      assert s == [s[0]] + s[1..];
      InsertSorts(s[0], SortBounds(s[1..]));
      Insert(s[0], SortBounds(s[1..]))
  }

  class Histogram {
    const table: Table<Hist>
    const bounds: seq<real>

    ghost predicate Valid()
      reads table
    {
      && Sorted(bounds) && table.zero == HistogramKind([], bounds).zero
      && forall key <- table.series :: |table.series[key].state.buckets| == |bounds|
    }

    constructor (names: seq<JsString>, bounds: seq<real>)
      ensures Valid() && fresh(table) && table.names == names && table.View() == Empty(0)
      ensures multiset(this.bounds) == multiset(bounds)
    {
      this.bounds := SortBounds(bounds);
      table := new Table(names, Hist(seq(|SortBounds(bounds)|, _ => 0), 0.0, 0));
    }

    method Observe(labels: Labels, x: real)
      requires Valid()
      modifies table
      ensures Valid()
      ensures table.View() == Step(HistogramKind(table.names, bounds), old(table.View()), Update(labels, x))
    {
      var slot := table.Slot(labels);
      if slot.None? {
        return;
      }
      var cell := table.series[slot.value];
      var h := cell.state.(sum := cell.state.sum + x, count := cell.state.count + 1);
      var i := 0;
      while i < |bounds|
        invariant 0 <= i <= |bounds| == |h.buckets|
        invariant h == cell.state.(sum := cell.state.sum + x, count := cell.state.count + 1, buckets := h.buckets)
        invariant forall j :: 0 <= j < |bounds| ==>
                    h.buckets[j] == cell.state.buckets[j] + (if j < i && x <= bounds[j] then 1 else 0)
      {
        if x <= bounds[i] {
          h := h.(buckets := h.buckets[i := h.buckets[i] + 1]);
        }
        i := i + 1;
      }
      assert h == Observed(cell.state, bounds, x);
      table.series := table.series[slot.value := cell.(state := h)];
    }
  }

  /** Names are unique in the process-wide registry; registering a taken name throws and adds nothing. */
  class Registry {
    var names: seq<JsString>

    constructor ()
      ensures names == []
    {
      names := [];
    }

    method Register(name: JsString) returns (r: Result<(), JsString>)
      requires Distinct(names)
      modifies this
      ensures Distinct(names)
      ensures r.Err? <==> name in old(names)
      ensures names == if r.Err? then old(names) else old(names) + [name]
    {
      if name in names {
        return Err(name);
      }
      names := names + [name];
      return Ok(());
    }
  }

  /**
   * After every log, an update gets its own series exactly if its key has one already or the family has fewer
   * than two thousand; otherwise it is dropped and counted. No other key comes or goes, and a new series has one
   * value per label name, empty where the caller gave none.
   */
  lemma UpdatesAreTakenExactly<S, N>(k: Kind<S, N>, events: seq<Event<N>>, labels: Labels, n: N)
    ensures
      var (f, g) := (Run(k, events), Run(k, events + [Update(labels, n)]));
      var key := KeyOf(k.names, labels);
      var taken := key in f.cells || |f.order| < 2000;
      && g.cells.Keys == f.cells.Keys + (if taken then {key} else {})
      && g.dropped == f.dropped + (if taken then 0 else 1)
      && (taken && key !in f.cells ==>
            && |g.cells[key].values| == |k.names|
            && forall i :: 0 <= i < |k.names| ==>
                 g.cells[key].values[i] == if k.names[i] in labels then labels[k.names[i]] else [])
  {
    hide KeyOf;
    assert (events + [Update(labels, n)])[..|events|] == events;
  }
}
