/**
 * What a run cost (`attributeRunCost` in `runs.ts`): every held second is priced at its host's share
 * or set aside for one of three reasons. Money and time are reals; rounding is modelled where the
 * code rounds.
 */
module RunCost {
  import opened Wrappers

  type HostId = string

  datatype Hold = Hold(seconds: real, hostId: Option<HostId>)

  /** `devices` is what the host carries now, `rate` what the deployment pays for it per hour. */
  datatype HostShare = HostShare(devices: int, rate: Option<real>, enrolled: bool)

  datatype Kind = Own | Removed | Unrated | Priced

  /** A clause of the note, with the whole minutes it names. */
  datatype Clause = Clause(kind: Kind, minutes: int)

  datatype Note =
    | NothingHeld
    | Share(devices: set<int>, leftOut: seq<Clause>)
    | AllRemoved(leftOut: seq<Clause>)
    | NoRate(leftOut: seq<Clause>)
    | OwnMachine

  datatype RunCost = RunCost(inr: real, hostHourlyCost: real, note: Note)

  /** `Math.round`: halves go up. */
  function Round(x: real): int {
    (x + 0.5).Floor
  }

  function Minutes(seconds: real): int {
    Round(seconds / 60.0)
  }

  function Clamped(h: Hold): real {
    if h.seconds > 0.0 then h.seconds else 0.0
  }

  /** An absent or empty host id finds no host. */
  function HostOf(h: Hold, hosts: map<HostId, HostShare>): Option<HostShare> {
    if h.hostId.Some? && h.hostId.value != "" && h.hostId.value in hosts then Some(hosts[h.hostId.value]) else None
  }

  function KindOf(h: Hold, hosts: map<HostId, HostShare>): Kind {
    var host := HostOf(h, hosts);
    if host.Some? && host.value.enrolled then Own
    else if host.None? || host.value.devices <= 0 then Removed
    else if host.value.rate.None? then Unrated
    else Priced
  }

  /** One second of every device the host carries costs a second of the host. */
  function Price(h: Hold, hosts: map<HostId, HostShare>): real {
    if !KindOf(h, hosts).Priced? then 0.0
    else
      var host := HostOf(h, hosts).value;
      (Clamped(h) / 3600.0) * (host.rate.value / host.devices as real)
  }

  // -------------------------------------------------------------------- sums

  function Sum(holds: seq<Hold>, f: Hold -> real): real {
    if holds == [] then 0.0 else Sum(holds[..|holds| - 1], f) + f(holds[|holds| - 1])
  }

  function Each(): Hold -> real {
    (h: Hold) => Clamped(h)
  }

  function EachOf(hosts: map<HostId, HostShare>, kind: Kind): Hold -> real {
    (h: Hold) => if KindOf(h, hosts) == kind then Clamped(h) else 0.0
  }

  function EachPrice(hosts: map<HostId, HostShare>): Hold -> real {
    (h: Hold) => Price(h, hosts)
  }

  function EachOn(id: HostId): Hold -> real {
    (h: Hold) => if h.hostId == Some(id) then Clamped(h) else 0.0
  }

  function Seconds(holds: seq<Hold>): real {
    Sum(holds, Each())
  }

  function SecondsOf(holds: seq<Hold>, hosts: map<HostId, HostShare>, kind: Kind): real {
    Sum(holds, EachOf(hosts, kind))
  }

  function TotalPrice(holds: seq<Hold>, hosts: map<HostId, HostShare>): real {
    Sum(holds, EachPrice(hosts))
  }

  lemma {:induction false} SumSplits(a: seq<Hold>, b: seq<Hold>, f: Hold -> real)
    ensures Sum(a + b, f) == Sum(a, f) + Sum(b, f)
    decreases |b|
  {
    if b == [] {
      assert a + b == a;
    } else {
      assert (a + b)[..|a + b| - 1] == a + b[..|b| - 1];
      SumSplits(a, b[..|b| - 1], f);
    }
  }

  /** A sum does not depend on the order of its terms. */
  lemma {:induction false} SumPermutes(a: seq<Hold>, b: seq<Hold>, f: Hold -> real)
    requires multiset(a) == multiset(b)
    ensures Sum(a, f) == Sum(b, f)
    decreases |a|
  {
    if a == [] {
      assert |multiset(b)| == 0;
    } else {
      var x, init := a[|a| - 1], a[..|a| - 1];
      assert a == init + [x];
      assert x in multiset(b);
      var i :| 0 <= i < |b| && b[i] == x;
      TakeOne(b, i, f);
      var rest := b[..i] + b[i + 1..];
      assert multiset(init) + multiset{x} == multiset(rest) + multiset{x};
      assert multiset(init) == multiset(rest) by {
        CancelOne(multiset(init), multiset(rest), x);
      }
      SumPermutes(init, rest, f);
    }
  }

  lemma CancelOne(a: multiset<Hold>, b: multiset<Hold>, x: Hold)
    requires a + multiset{x} == b + multiset{x}
    ensures a == b
  {
    assert a == (a + multiset{x}) - multiset{x};
    assert b == (b + multiset{x}) - multiset{x};
  }

  lemma TakeOne(b: seq<Hold>, i: nat, f: Hold -> real)
    requires i < |b|
    ensures Sum(b, f) == Sum(b[..i] + b[i + 1..], f) + f(b[i])
    ensures multiset(b) == multiset(b[..i] + b[i + 1..]) + multiset{b[i]}
  {
    hide Sum;
    var front, x, back := b[..i], b[i], b[i + 1..];
    assert b == front + ([x] + back);
    SumSplits(front, [x] + back, f);
    SumSplits([x], back, f);
    SumSplits(front, back, f);
    SumOne(x, f);
  }

  lemma SumOne(x: Hold, f: Hold -> real)
    ensures Sum([x], f) == f(x)
  {
    assert [x][..0] == [];
  }

  // ----------------------------------------------------------- the algorithm

  /** The rates that were used, and the divisors. */
  function RatesOf(holds: seq<Hold>, hosts: map<HostId, HostShare>): set<real> {
    set h | h in holds && KindOf(h, hosts).Priced? :: HostOf(h, hosts).value.rate.value
  }

  function DivisorsOf(holds: seq<Hold>, hosts: map<HostId, HostShare>): set<int> {
    set h | h in holds && KindOf(h, hosts).Priced? :: HostOf(h, hosts).value.devices
  }

  function LeftOut(parts: seq<(Kind, real)>): seq<Clause> {
    if parts == [] then []
    else (if Minutes(parts[0].1) > 0 then [Clause(parts[0].0, Minutes(parts[0].1))] else []) + LeftOut(parts[1..])
  }

  function NoteOf(holds: nat, total: real, divisors: set<int>, removed: real, unrated: real, own: real): Note {
    if holds == 0 || total == 0.0 then NothingHeld
    else if divisors != {} then Share(divisors, LeftOut([(Removed, removed), (Unrated, unrated), (Own, own)]))
    else if removed > 0.0 then AllRemoved(LeftOut([(Unrated, unrated), (Own, own)]))
    else if unrated > 0.0 then NoRate(LeftOut([(Own, own)]))
    else OwnMachine
  }

  /** What one more hold adds to each of the running totals. */
  lemma ExtendsByOne(holds: seq<Hold>, i: nat, hosts: map<HostId, HostShare>)
    requires i < |holds|
    ensures
      var h := holds[i];
      var (before, after) := (holds[..i], holds[..i + 1]);
      && Seconds(after) == Seconds(before) + Clamped(h)
      && TotalPrice(after, hosts) == TotalPrice(before, hosts) + Price(h, hosts)
      && (forall k: Kind ::
            SecondsOf(after, hosts, k) == SecondsOf(before, hosts, k) + if KindOf(h, hosts) == k then Clamped(h) else 0.0)
  {
    assert holds[..i + 1][..i] == holds[..i];
  }

  lemma UsesOneMore(holds: seq<Hold>, i: nat, hosts: map<HostId, HostShare>)
    requires i < |holds|
    ensures
      var h := holds[i];
      var (before, after) := (holds[..i], holds[..i + 1]);
      if KindOf(h, hosts).Priced? then
        && RatesOf(after, hosts) == RatesOf(before, hosts) + {HostOf(h, hosts).value.rate.value}
        && DivisorsOf(after, hosts) == DivisorsOf(before, hosts) + {HostOf(h, hosts).value.devices}
      else RatesOf(after, hosts) == RatesOf(before, hosts) && DivisorsOf(after, hosts) == DivisorsOf(before, hosts)
  {
    hide KindOf;
    assert holds[..i + 1] == holds[..i] + [holds[i]];
    assert forall h: Hold :: h in holds[..i + 1] <==> h in holds[..i] || h == holds[i];
  }

  method TotalSeconds(holds: seq<Hold>) returns (total: real)
    ensures total == Seconds(holds)
  {
    total := 0.0;
    var i := 0;
    while i < |holds|
      invariant 0 <= i <= |holds|
      invariant total == Seconds(holds[..i])
    {
      ExtendsByOne(holds, i, map[]);
      total := total + Clamped(holds[i]);
      i := i + 1;
    }
    assert holds[..i] == holds;
  }

  lemma HasElement(s: set<real>)
    requires s != {}
    ensures exists r: real :: r in s
  {
    assert (forall r: real :: r !in s) ==> s == {};
  }

  method Max(rates: set<real>) returns (max: real)
    requires rates != {}
    ensures max in rates && forall r <- rates :: r <= max
  {
    HasElement(rates);
    var first :| first in rates;
    max := first;
    var rest := rates - {first};
    while rest != {}
      invariant max in rates && rest <= rates
      invariant forall r <- rates :: r in rest || r <= max
      decreases |rest|
    {
      HasElement(rest);
      var r :| r in rest;
      rest := rest - {r};
      if r > max {
        max := r;
      }
    }
  }

  lemma Nothing(hosts: map<HostId, HostShare>)
    ensures TotalPrice([], hosts) == 0.0 && RatesOf([], hosts) == {} && DivisorsOf([], hosts) == {}
    ensures forall k: Kind :: SecondsOf([], hosts, k) == 0.0
  {
  }

  method AttributeRunCost(holds: seq<Hold>, hosts: map<HostId, HostShare>, defaultRate: Option<real>)
    returns (deviceMinutes: int, cost: Option<RunCost>)
    ensures deviceMinutes == Minutes(Seconds(holds))
    ensures cost.None? <==> RatesOf(holds, hosts) == {} && defaultRate.None?
    ensures cost.Some? ==>
              && cost.value.inr == Round(TotalPrice(holds, hosts) * 100.0) as real / 100.0
              && (if RatesOf(holds, hosts) == {} then cost.value.hostHourlyCost == defaultRate.value
                  else
                    && cost.value.hostHourlyCost in RatesOf(holds, hosts)
                    && forall r <- RatesOf(holds, hosts) :: r <= cost.value.hostHourlyCost)
              && cost.value.note == NoteOf(|holds|, Seconds(holds), DivisorsOf(holds, hosts),
                                           SecondsOf(holds, hosts, Removed), SecondsOf(holds, hosts, Unrated),
                                           SecondsOf(holds, hosts, Own))
  {
    hide Sum, RatesOf, DivisorsOf, Seconds, TotalPrice, SecondsOf, NoteOf, Round;
    Nothing(hosts);
    var totalSeconds := TotalSeconds(holds);
    deviceMinutes := Minutes(totalSeconds);

    assert holds[..0] == [];
    var inr, removedSeconds, unratedSeconds, ownSeconds := 0.0, 0.0, 0.0, 0.0;
    var divisors: set<int>, rates: set<real> := {}, {};
    var i := 0;
    while i < |holds|
      invariant 0 <= i <= |holds|
      invariant inr == TotalPrice(holds[..i], hosts)
      invariant removedSeconds == SecondsOf(holds[..i], hosts, Removed)
      invariant unratedSeconds == SecondsOf(holds[..i], hosts, Unrated)
      invariant ownSeconds == SecondsOf(holds[..i], hosts, Own)
      invariant rates == RatesOf(holds[..i], hosts) && divisors == DivisorsOf(holds[..i], hosts)
    {
      var h := holds[i];
      ExtendsByOne(holds, i, hosts);
      UsesOneMore(holds, i, hosts);
      i := i + 1;
      var seconds := Clamped(h);
      var host := HostOf(h, hosts);
      if host.Some? && host.value.enrolled {
        ownSeconds := ownSeconds + seconds;
        continue;
      }
      if host.None? || host.value.devices <= 0 {
        removedSeconds := removedSeconds + seconds;
        continue;
      }
      if host.value.rate.None? {
        unratedSeconds := unratedSeconds + seconds;
        continue;
      }
      divisors := divisors + {host.value.devices};
      rates := rates + {host.value.rate.value};
      inr := inr + (seconds / 3600.0) * (host.value.rate.value / host.value.devices as real);
    }
    assert holds[..i] == holds;

    if rates == {} && defaultRate.None? {
      return deviceMinutes, None;
    }
    var shown;
    if rates != {} {
      shown := Max(rates);
    } else {
      shown := defaultRate.value;
    }
    var note := NoteOf(|holds|, totalSeconds, divisors, removedSeconds, unratedSeconds, ownSeconds);
    cost := Some(RunCost(Round(inr * 100.0) as real / 100.0, shown, note));
  }

  // ------------------------------------------------------------ main results

  /** No second is lost or counted twice. */
  lemma {:induction false} TimeIsConserved(holds: seq<Hold>, hosts: map<HostId, HostShare>)
    ensures Seconds(holds) == SecondsOf(holds, hosts, Priced) + SecondsOf(holds, hosts, Own)
                              + SecondsOf(holds, hosts, Removed) + SecondsOf(holds, hosts, Unrated)
    decreases |holds|
  {
    if holds != [] {
      TimeIsConserved(holds[..|holds| - 1], hosts);
    }
  }

  /** Neither the minutes nor the unrounded cost nor any of the four parts depends on the order. */
  lemma OrderIsIrrelevant(a: seq<Hold>, b: seq<Hold>, hosts: map<HostId, HostShare>, kind: Kind)
    requires multiset(a) == multiset(b)
    ensures TotalPrice(a, hosts) == TotalPrice(b, hosts) && Seconds(a) == Seconds(b)
    ensures SecondsOf(a, hosts, kind) == SecondsOf(b, hosts, kind)
  {
    SumPermutes(a, b, EachPrice(hosts));
    SumPermutes(a, b, Each());
    SumPermutes(a, b, EachOf(hosts, kind));
  }

  /** Seconds held on one host. */
  function HeldOn(holds: seq<Hold>, id: HostId): real {
    Sum(holds, EachOn(id))
  }

  predicate IsPriced(id: HostId, hosts: map<HostId, HostShare>)
    requires id in hosts
  {
    KindOf(Hold(0.0, Some(id)), hosts).Priced?
  }

  /** No priced host has a negative rate. */
  predicate RatesFit(hosts: map<HostId, HostShare>) {
    forall id <- hosts :: IsPriced(id, hosts) ==> hosts[id].rate.value >= 0.0
  }

  /** No priced host was held for more than all of its devices over a window of `hours`. */
  ghost predicate HoldsFit(holds: seq<Hold>, hosts: map<HostId, HostShare>, hours: real) {
    forall id <- hosts :: IsPriced(id, hosts) ==> HeldOn(holds, id) <= hosts[id].devices as real * (hours * 3600.0)
  }

  function RateOf(id: HostId, hosts: map<HostId, HostShare>): real
    requires id in hosts
  {
    if IsPriced(id, hosts) then hosts[id].rate.value else 0.0
  }

  function SharePrice(seconds: real, id: HostId, hosts: map<HostId, HostShare>): real
    requires id in hosts
  {
    if IsPriced(id, hosts)
    then (seconds / 3600.0) * (hosts[id].rate.value / hosts[id].devices as real)
    else 0.0
  }

  /** The price, host by host. */
  function PriceByHost(holds: seq<Hold>, ids: seq<HostId>, hosts: map<HostId, HostShare>): real
    requires forall i :: 0 <= i < |ids| ==> ids[i] in hosts
  {
    if ids == [] then 0.0
    else SharePrice(HeldOn(holds, ids[0]), ids[0], hosts) + PriceByHost(holds, ids[1..], hosts)
  }

  function RatesFor(ids: seq<HostId>, hosts: map<HostId, HostShare>, hours: real): real
    requires forall i :: 0 <= i < |ids| ==> ids[i] in hosts
  {
    if ids == [] then 0.0 else RateOf(ids[0], hosts) * hours + RatesFor(ids[1..], hosts, hours)
  }

  lemma SharesAdd(a: real, b: real, id: HostId, hosts: map<HostId, HostShare>)
    requires id in hosts
    ensures SharePrice(a + b, id, hosts) == SharePrice(a, id, hosts) + SharePrice(b, id, hosts)
  {
    if IsPriced(id, hosts) {
      var r := hosts[id].rate.value / hosts[id].devices as real;
      assert ((a + b) / 3600.0) * r == (a / 3600.0 + b / 3600.0) * r == (a / 3600.0) * r + (b / 3600.0) * r;
    }
  }

  /** One more hold raises exactly its own host's part. */
  lemma {:induction false} HoldIsItsHosts(holds: seq<Hold>, h: Hold, ids: seq<HostId>, hosts: map<HostId, HostShare>)
    requires Distinct(ids) && forall i :: 0 <= i < |ids| ==> ids[i] in hosts
    ensures PriceByHost(holds + [h], ids, hosts)
            == PriceByHost(holds, ids, hosts)
               + if h.hostId.Some? && h.hostId.value in ids then Price(h, hosts) else 0.0
    decreases |ids|
  {
    if ids != [] {
      var id := ids[0];
      OneHostMore(holds, h, id, hosts);
      hide SharePrice, HeldOn, Price;
      HoldIsItsHosts(holds, h, ids[1..], hosts);
      assert ids == [id] + ids[1..];
      if h.hostId == Some(id) {
        assert id !in ids[1..];
      }
    }
  }

  lemma OneHostMore(holds: seq<Hold>, h: Hold, id: HostId, hosts: map<HostId, HostShare>)
    requires id in hosts
    ensures SharePrice(HeldOn(holds + [h], id), id, hosts)
            == SharePrice(HeldOn(holds, id), id, hosts) + if h.hostId == Some(id) then Price(h, hosts) else 0.0
  {
    assert (holds + [h])[..|holds|] == holds;
    var more := if h.hostId == Some(id) then Clamped(h) else 0.0;
    assert HeldOn(holds + [h], id) == HeldOn(holds, id) + more;
    SharesAdd(HeldOn(holds, id), more, id, hosts);
    OneShare(h, id, hosts);
    hide SharePrice, HeldOn, Price;
  }

  lemma OneShare(h: Hold, id: HostId, hosts: map<HostId, HostShare>)
    requires id in hosts
    ensures SharePrice(0.0, id, hosts) == 0.0
    ensures h.hostId == Some(id) ==> SharePrice(Clamped(h), id, hosts) == Price(h, hosts)
  {
  }

  lemma {:induction false} NothingCostsNothing(ids: seq<HostId>, hosts: map<HostId, HostShare>)
    requires forall i :: 0 <= i < |ids| ==> ids[i] in hosts
    ensures PriceByHost([], ids, hosts) == 0.0
    decreases |ids|
  {
    if ids != [] {
      NothingCostsNothing(ids[1..], hosts);
    }
  }

  lemma {:induction false} PriceIsByHost(holds: seq<Hold>, ids: seq<HostId>, hosts: map<HostId, HostShare>)
    requires Distinct(ids) && forall id :: id in ids <==> id in hosts
    ensures TotalPrice(holds, hosts) == PriceByHost(holds, ids, hosts)
    decreases |holds|
  {
    if holds == [] {
      NothingCostsNothing(ids, hosts);
    } else {
      var init, h := holds[..|holds| - 1], holds[|holds| - 1];
      assert holds == init + [h];
      PriceIsByHost(init, ids, hosts);
      HoldIsItsHosts(init, h, ids, hosts);
    }
  }

  lemma ShareIsBounded(seconds: real, hours: real, id: HostId, hosts: map<HostId, HostShare>)
    requires id in hosts && (IsPriced(id, hosts) ==> hosts[id].rate.value >= 0.0)
    requires IsPriced(id, hosts) ==> seconds <= hosts[id].devices as real * (hours * 3600.0)
    ensures SharePrice(seconds, id, hosts) <= RateOf(id, hosts) * hours
  {
    if IsPriced(id, hosts) {
      var r, d := hosts[id].rate.value, hosts[id].devices as real;
      var s := seconds / 3600.0;
      assert s <= d * hours;
      assert r / d >= 0.0;
      Scaled(s, d * hours, r / d);
      assert (d * hours) * (r / d) == hours * (d * (r / d)) == hours * r;
    }
  }

  lemma Scaled(a: real, b: real, c: real)
    requires a <= b && c >= 0.0
    ensures a * c <= b * c
  {
  }

  /**
   * The fair share really is a share: when no priced host was held for more than all of its devices over
   * a window of `hours`, the unrounded cost is at most what those hosts cost in that window.
   */
  lemma {:induction false} CostIsWithinHostRates(holds: seq<Hold>, ids: seq<HostId>, hosts: map<HostId, HostShare>,
                                                 hours: real)
    requires Distinct(ids) && forall id :: id in ids <==> id in hosts
    requires RatesFit(hosts) && HoldsFit(holds, hosts, hours)
    ensures TotalPrice(holds, hosts) <= RatesFor(ids, hosts, hours)
  {
    PriceIsByHost(holds, ids, hosts);
    PartsAreBounded(holds, ids, hosts, hours);
  }

  lemma FirstIsBounded(holds: seq<Hold>, id: HostId, hosts: map<HostId, HostShare>, hours: real)
    requires id in hosts && RatesFit(hosts) && HoldsFit(holds, hosts, hours)
    ensures SharePrice(HeldOn(holds, id), id, hosts) <= RateOf(id, hosts) * hours
  {
    hide SharePrice, RateOf, HeldOn;
    ShareIsBounded(HeldOn(holds, id), hours, id, hosts);
  }

  lemma {:induction false} PartsAreBounded(holds: seq<Hold>, ids: seq<HostId>, hosts: map<HostId, HostShare>,
                                           hours: real)
    requires forall i :: 0 <= i < |ids| ==> ids[i] in hosts
    requires RatesFit(hosts) && HoldsFit(holds, hosts, hours)
    ensures PriceByHost(holds, ids, hosts) <= RatesFor(ids, hosts, hours)
    decreases |ids|
  {
    if ids != [] {
      FirstIsBounded(holds, ids[0], hosts, hours);
      hide SharePrice, RateOf, HeldOn, RatesFit, HoldsFit;
      PartsAreBounded(holds, ids[1..], hosts, hours);
      assert PriceByHost(holds, ids, hosts)
             == SharePrice(HeldOn(holds, ids[0]), ids[0], hosts) + PriceByHost(holds, ids[1..], hosts);
      assert RatesFor(ids, hosts, hours) == RateOf(ids[0], hosts) * hours + RatesFor(ids[1..], hosts, hours);
    }
  }

  /** What is charged is the cost to the nearest hundredth. */
  lemma RoundingIsBounded(x: real)
    ensures -0.005 <= Round(x * 100.0) as real / 100.0 - x <= 0.005
  {
    var r := Round(x * 100.0) as real;
    assert x * 100.0 - 0.5 <= r <= x * 100.0 + 0.5;
  }

  /**
   * The same bound for what is charged: the cost on the screen exceeds what the hosts cost in the window
   * by half a hundredth at most.
   */
  lemma ChargeIsWithinHostRates(holds: seq<Hold>, ids: seq<HostId>, hosts: map<HostId, HostShare>, hours: real)
    requires Distinct(ids) && forall id :: id in ids <==> id in hosts
    requires RatesFit(hosts) && HoldsFit(holds, hosts, hours)
    ensures 0.0 <= Round(TotalPrice(holds, hosts) * 100.0) as real / 100.0 <= RatesFor(ids, hosts, hours) + 0.005
  {
    CostIsWithinHostRates(holds, ids, hosts, hours);
    RoundingIsBounded(TotalPrice(holds, hosts));
    PriceIsNotNegative(holds, hosts);
  }

  lemma {:induction false} PriceIsNotNegative(holds: seq<Hold>, hosts: map<HostId, HostShare>)
    requires RatesFit(hosts)
    ensures TotalPrice(holds, hosts) >= 0.0
    decreases |holds|
  {
    if holds != [] {
      var h := holds[|holds| - 1];
      PriceIsNotNegative(holds[..|holds| - 1], hosts);
      if KindOf(h, hosts).Priced? {
        var host := HostOf(h, hosts).value;
        assert IsPriced(h.hostId.value, hosts);
        assert host.rate.value / host.devices as real >= 0.0;
        Scaled(0.0, Clamped(h) / 3600.0, host.rate.value / host.devices as real);
      }
    }
  }

  predicate Mentions(note: Note, kind: Kind) {
    match kind
    case Priced => note.Share?
    case Removed => note.AllRemoved? || (note.Share? && exists c <- note.leftOut :: c.kind == Removed)
    case Unrated => note.NoRate? || ((note.Share? || note.AllRemoved?) && exists c <- note.leftOut :: c.kind == Unrated)
    case Own =>
      note.OwnMachine? || ((note.Share? || note.AllRemoved? || note.NoRate?) && exists c <- note.leftOut :: c.kind == Own)
  }

  lemma {:induction false} NonNegative(holds: seq<Hold>, hosts: map<HostId, HostShare>, kind: Kind)
    ensures SecondsOf(holds, hosts, kind) >= 0.0
    ensures SecondsOf(holds, hosts, Priced) > 0.0 ==> DivisorsOf(holds, hosts) != {}
    decreases |holds|
  {
    if holds != [] {
      var init, h := holds[..|holds| - 1], holds[|holds| - 1];
      NonNegative(init, hosts, kind);
      assert forall x: Hold :: x in holds <==> x in init || x == h;
      if KindOf(h, hosts).Priced? {
        assert HostOf(h, hosts).value.devices in DivisorsOf(holds, hosts);
      } else if DivisorsOf(init, hosts) != {} {
        var d :| d in DivisorsOf(init, hosts);
        assert d in DivisorsOf(holds, hosts);
      }
    }
  }

  lemma LeftOutMentions(parts: seq<(Kind, real)>, kind: Kind, seconds: real)
    requires (kind, seconds) in parts && Minutes(seconds) > 0
    ensures exists c <- LeftOut(parts) :: c.kind == kind
  {
    if parts[0] == (kind, seconds) {
      assert LeftOut(parts)[0].kind == kind;
    } else {
      LeftOutMentions(parts[1..], kind, seconds);
      var c :| c in LeftOut(parts[1..]) && c.kind == kind;
      assert c in LeftOut(parts);
    }
  }

  /** The note names every reason for which at least a minute was not priced. */
  lemma NoteIsHonest(holds: seq<Hold>, hosts: map<HostId, HostShare>, kind: Kind)
    requires !kind.Priced? && Minutes(SecondsOf(holds, hosts, kind)) > 0
    ensures
      Mentions(NoteOf(|holds|, Seconds(holds), DivisorsOf(holds, hosts), SecondsOf(holds, hosts, Removed),
                      SecondsOf(holds, hosts, Unrated), SecondsOf(holds, hosts, Own)), kind)
  {
    TimeIsConserved(holds, hosts);
    NonNegative(holds, hosts, Priced);
    NonNegative(holds, hosts, Own);
    NonNegative(holds, hosts, Removed);
    NonNegative(holds, hosts, Unrated);
    var removed, unrated, own :=
      SecondsOf(holds, hosts, Removed), SecondsOf(holds, hosts, Unrated), SecondsOf(holds, hosts, Own);
    var seconds := SecondsOf(holds, hosts, kind);
    var all, some, last := [(Removed, removed), (Unrated, unrated), (Own, own)], [(Unrated, unrated), (Own, own)], [(Own, own)];
    assert (kind, seconds) in all;
    LeftOutMentions(all, kind, seconds);
    if kind != Removed {
      LeftOutMentions(some, kind, seconds);
    }
    if kind == Own {
      LeftOutMentions(last, kind, seconds);
    }
  }

  // ------------------------------------------------------ what each hold costs

  /** Why a hold is priced or not, from the host alone. */
  lemma KindExactly(h: Hold, hosts: map<HostId, HostShare>)
    ensures
      var known := h.hostId.Some? && h.hostId.value != "" && h.hostId.value in hosts;
      && (KindOf(h, hosts).Own? <==> known && hosts[h.hostId.value].enrolled)
      && (KindOf(h, hosts).Removed? <==>
            !known || (!hosts[h.hostId.value].enrolled && hosts[h.hostId.value].devices <= 0))
      && (KindOf(h, hosts).Unrated? <==>
            known && !hosts[h.hostId.value].enrolled && hosts[h.hostId.value].devices > 0
            && hosts[h.hostId.value].rate.None?)
      && (KindOf(h, hosts).Priced? <==>
            known && !hosts[h.hostId.value].enrolled && hosts[h.hostId.value].devices > 0
            && hosts[h.hostId.value].rate.Some?)
  {
  }

  function Without(holds: seq<Hold>, hosts: map<HostId, HostShare>): seq<Hold> {
    if holds == [] then []
    else
      var h := holds[|holds| - 1];
      Without(holds[..|holds| - 1], hosts)
      + (if h.hostId.Some? && h.hostId.value in hosts && hosts[h.hostId.value].enrolled then [] else [h])
  }

  /** Time on a machine the organisation enrolled itself adds nothing to the cost, and is all that is left out. */
  lemma {:induction false} OwnMachinesAreFree(holds: seq<Hold>, hosts: map<HostId, HostShare>)
    requires "" !in hosts
    ensures TotalPrice(Without(holds, hosts), hosts) == TotalPrice(holds, hosts)
    ensures Seconds(holds) - Seconds(Without(holds, hosts)) == SecondsOf(holds, hosts, Own)
    decreases |holds|
  {
    if holds != [] {
      var init, h := holds[..|holds| - 1], holds[|holds| - 1];
      OwnMachinesAreFree(init, hosts);
      KindExactly(h, hosts);
      var kept := Without(init, hosts);
      hide KindOf;
      assert (kept + [h])[..|kept|] == kept;
      if Without(holds, hosts) == kept + [] {
        assert kept + [] == kept;
      }
    }
  }

  /** All devices of a host held for some hours cost what the host costs in those hours. */
  lemma FullHostCostsItsRate(id: HostId, hosts: map<HostId, HostShare>, hours: real)
    requires id in hosts && id != "" && hours >= 0.0
    requires !hosts[id].enrolled && hosts[id].devices > 0 && hosts[id].rate.Some?
    ensures TotalPrice(Repeat(Hold(hours * 3600.0, Some(id)), hosts[id].devices), hosts) == hosts[id].rate.value * hours
  {
    var h, n, r := Hold(hours * 3600.0, Some(id)), hosts[id].devices, hosts[id].rate.value;
    PriceRepeats(h, n, hosts);
    assert Price(h, hosts) == hours * (r / n as real);
    assert (n as real) * (hours * (r / n as real)) == hours * ((n as real) * (r / n as real));
    assert (n as real) * (r / n as real) == r;
  }

  function Repeat(h: Hold, n: nat): seq<Hold> {
    if n == 0 then [] else Repeat(h, n - 1) + [h]
  }

  lemma {:induction false} PriceRepeats(h: Hold, n: nat, hosts: map<HostId, HostShare>)
    ensures TotalPrice(Repeat(h, n), hosts) == n as real * Price(h, hosts)
    decreases n
  {
    hide Price;
    if n > 0 {
      PriceRepeats(h, n - 1, hosts);
      var init := Repeat(h, n - 1);
      assert (init + [h])[..|init|] == init;
      assert n as real * Price(h, hosts) == (n - 1) as real * Price(h, hosts) + Price(h, hosts);
    }
  }

  /** `Math.round` gives the nearest integer, and the larger of two that are as near. */
  lemma RoundIsNearest(x: real)
    ensures (Round(x) as real) - 0.5 <= x < (Round(x) as real) + 0.5
  {
  }

  /** The minutes are the seconds to the nearest minute. */
  lemma MinutesAreNearest(seconds: real)
    ensures Minutes(seconds) as real * 60.0 - 30.0 <= seconds < Minutes(seconds) as real * 60.0 + 30.0
  {
    RoundIsNearest(seconds / 60.0);
  }

  /** The clauses about what is left out: one for each part that rounds to a minute or more, in this order. */
  predicate Clauses(cs: seq<Clause>, parts: seq<(Kind, real)>) {
    if parts == [] then cs == []
    else if Minutes(parts[0].1) > 0 then
      cs != [] && cs[0].kind == parts[0].0 && cs[0].minutes == Minutes(parts[0].1) && Clauses(cs[1..], parts[1..])
    else Clauses(cs, parts[1..])
  }

  lemma {:induction false} LeftOutIsClauses(parts: seq<(Kind, real)>)
    ensures Clauses(LeftOut(parts), parts)
    decreases |parts|
  {
    hide Minutes;
    if parts != [] {
      LeftOutIsClauses(parts[1..]);
      if Minutes(parts[0].1) > 0 {
        assert LeftOut(parts)[1..] == LeftOut(parts[1..]);
      } else {
        assert [] + LeftOut(parts[1..]) == LeftOut(parts[1..]);
      }
    }
  }

  /**
   * Which note is given, and what it says: nothing was held; a share across the devices of the hosts that were
   * priced; otherwise that the devices are gone, or have no rate, or are the organisation's own. The time that
   * was not priced for another reason follows, each part once with its minutes.
   */
  lemma NoteExactly(holds: seq<Hold>, hosts: map<HostId, HostShare>)
    ensures
      var note := NoteOf(|holds|, Seconds(holds), DivisorsOf(holds, hosts), SecondsOf(holds, hosts, Removed),
                         SecondsOf(holds, hosts, Unrated), SecondsOf(holds, hosts, Own));
      var (removed, unrated, own) := (SecondsOf(holds, hosts, Removed), SecondsOf(holds, hosts, Unrated),
                                      SecondsOf(holds, hosts, Own));
      var priced := exists h <- holds :: KindOf(h, hosts).Priced?;
      if Seconds(holds) == 0.0 then note == NothingHeld
      else if priced then
        && note.Share?
        && (forall d: int :: d in note.devices <==>
              exists h <- holds :: KindOf(h, hosts).Priced? && hosts[h.hostId.value].devices == d)
        && Clauses(note.leftOut, [(Removed, removed), (Unrated, unrated), (Own, own)])
      else if removed > 0.0 then note.AllRemoved? && Clauses(note.leftOut, [(Unrated, unrated), (Own, own)])
      else if unrated > 0.0 then note.NoRate? && Clauses(note.leftOut, [(Own, own)])
      else note == OwnMachine
  {
    hide KindOf, SecondsOf, LeftOut, Clauses;
    var removed, unrated, own :=
      SecondsOf(holds, hosts, Removed), SecondsOf(holds, hosts, Unrated), SecondsOf(holds, hosts, Own);
    LeftOutIsClauses([(Removed, removed), (Unrated, unrated), (Own, own)]);
    LeftOutIsClauses([(Unrated, unrated), (Own, own)]);
    LeftOutIsClauses([(Own, own)]);
    assert |holds| == 0 ==> Seconds(holds) == 0.0;
    forall h <- holds
      ensures KindOf(h, hosts).Priced? ==> h.hostId.Some? && h.hostId.value in hosts
                                           && HostOf(h, hosts) == Some(hosts[h.hostId.value])
    {
      KindExactly(h, hosts);
    }
    SomeDivisor(holds, hosts);
  }

  lemma SomeDivisor(holds: seq<Hold>, hosts: map<HostId, HostShare>)
    ensures DivisorsOf(holds, hosts) != {} <==> exists h <- holds :: KindOf(h, hosts).Priced?
  {
    if h :| h in holds && KindOf(h, hosts).Priced? {
      assert HostOf(h, hosts).value.devices in DivisorsOf(holds, hosts);
    }
    if DivisorsOf(holds, hosts) != {} {
      var d :| d in DivisorsOf(holds, hosts);
    }
  }
}
